/**
 * The parts of java.lang.String that the name matcher relies on: ASCII case
 * folding (toLowerCase), trim, and the two orderings compareTo and
 * compareToIgnoreCase. Characters are compared by their code, as Java compares
 * UTF-16 code units; only ASCII letters are case-folded.
 */
module JavaString {

  predicate IsUpper(c: char) {
    'A' <= c <= 'Z'
  }

  /** Character.toLowerCase on ASCII: 'A'..'Z' become 'a'..'z', all else is unchanged. */
  function LowerChar(c: char): char {
    if IsUpper(c) then (c as int + 32) as char else c
  }

  /**
   * String.toLowerCase: every upper-case letter is replaced by its lower-case
   * form, 32 code points further on ('A' becomes 'a'); nothing else changes.
   */
  function ToLowerCase(s: string): (r: string)
    ensures |r| == |s|
    ensures forall i :: 0 <= i < |r| ==> !IsUpper(r[i])
    ensures forall i :: 0 <= i < |r| ==> (r[i] == s[i] <==> !IsUpper(s[i]))
    ensures forall i :: 0 <= i < |s| && IsUpper(s[i]) ==> r[i] as int == s[i] as int + ('a' as int - 'A' as int)
  {
    seq(|s|, i requires 0 <= i < |s| => LowerChar(s[i]))
  }

  /** Lower-casing a string without upper-case letters changes nothing. */
  lemma LowerCaseWithoutUpper(s: string)
    requires forall i :: 0 <= i < |s| ==> !IsUpper(s[i])
    ensures ToLowerCase(s) == s
  {
  }

  /** Lower-casing twice is lower-casing once. */
  lemma LowerCaseIdempotent(s: string)
    ensures ToLowerCase(ToLowerCase(s)) == ToLowerCase(s)
  {
    LowerCaseWithoutUpper(ToLowerCase(s));
  }

  /** Lower-casing works character by character, so it distributes over concatenation. */
  lemma LowerCaseAppend(a: string, b: string)
    ensures ToLowerCase(a + b) == ToLowerCase(a) + ToLowerCase(b)
  {
    var l, r := ToLowerCase(a + b), ToLowerCase(a) + ToLowerCase(b);
    forall i | 0 <= i < |l| ensures l[i] == r[i] {
      if i < |a| {
        assert (a + b)[i] == a[i];
      } else {
        assert (a + b)[i] == b[i - |a|];
      }
    }
  }

  /** The leading part of String.trim: drops every leading character whose code is at most that of ' '. */
  function TrimLeading(s: string): (r: string)
    ensures |r| <= |s| && r == s[|s| - |r|..]
    ensures forall i :: 0 <= i < |s| - |r| ==> s[i] <= ' '
    ensures |r| > 0 ==> r[0] > ' '
  {
    if |s| > 0 && s[0] <= ' ' then TrimLeading(s[1..]) else s
  }

  /** The trailing part of String.trim: drops every trailing character whose code is at most that of ' '. */
  function TrimTrailing(s: string): (r: string)
    ensures |r| <= |s| && r == s[..|r|]
    ensures forall i :: |r| <= i < |s| ==> s[i] <= ' '
    ensures |r| > 0 ==> r[|r| - 1] > ' '
  {
    if |s| > 0 && s[|s| - 1] <= ' ' then TrimTrailing(s[..|s| - 1]) else s
  }

  /** String.trim: no character at most ' ' is left at either end. */
  function Trim(s: string): (r: string)
    ensures |r| <= |s|
    ensures |r| > 0 ==> r[0] > ' ' && r[|r| - 1] > ' '
  {
    TrimTrailing(TrimLeading(s))
  }

  /** A string whose first and last characters are above ' ' is its own trim. */
  lemma TrimmedIsFixed(s: string)
    requires |s| > 0 ==> s[0] > ' ' && s[|s| - 1] > ' '
    ensures Trim(s) == s
  {
  }

  /**
   * String.compareTo: at the first index where the strings differ, the
   * difference of the two character codes; if one is a prefix of the other,
   * the difference of the lengths.
   */
  function CompareTo(s: string, t: string): (r: int)
    ensures s <= t ==> r == |s| - |t|
    ensures r == 0 ==> |s| == |t|
  {
    if |s| == 0 || |t| == 0 then |s| - |t|
    else if s[0] != t[0] then s[0] as int - t[0] as int
    else CompareTo(s[1..], t[1..])
  }

  /**
   * String.compareToIgnoreCase: as compareTo, but two characters that differ
   * are compared after case folding (upper-case, then lower-case, which on
   * ASCII is LowerChar).
   */
  function CompareToIgnoreCase(s: string, t: string): (r: int)
    ensures s <= t ==> r == |s| - |t|
    ensures r == 0 ==> |s| == |t|
  {
    if |s| == 0 || |t| == 0 then |s| - |t|
    else if LowerChar(s[0]) != LowerChar(t[0]) then LowerChar(s[0]) as int - LowerChar(t[0]) as int
    else CompareToIgnoreCase(s[1..], t[1..])
  }

  /** compareTo answers 0 exactly on equal strings. */
  lemma {:induction false} CompareToZeroIff(s: string, t: string)
    ensures CompareTo(s, t) == 0 <==> s == t
  {
    if |s| > 0 && |t| > 0 && s[0] == t[0] {
      CompareToZeroIff(s[1..], t[1..]);
      assert s == [s[0]] + s[1..] && t == [t[0]] + t[1..];
    }
  }

  /** Swapping the arguments of compareTo negates the answer. */
  lemma {:induction false} CompareToAntisymmetric(s: string, t: string)
    ensures CompareTo(t, s) == -CompareTo(s, t)
  {
    if |s| > 0 && |t| > 0 && s[0] == t[0] {
      CompareToAntisymmetric(s[1..], t[1..]);
    }
  }

  /** compareTo is transitive, and strictly so when either step is strict. */
  lemma {:induction false} CompareToTransitive(s: string, t: string, u: string)
    ensures CompareTo(s, t) <= 0 && CompareTo(t, u) <= 0 ==> CompareTo(s, u) <= 0
    ensures CompareTo(s, t) < 0 && CompareTo(t, u) <= 0 ==> CompareTo(s, u) < 0
    ensures CompareTo(s, t) <= 0 && CompareTo(t, u) < 0 ==> CompareTo(s, u) < 0
  {
    if |s| > 0 && |t| > 0 && |u| > 0 && s[0] == t[0] == u[0] {
      CompareToTransitive(s[1..], t[1..], u[1..]);
    }
  }

  /** compareToIgnoreCase is compareTo applied to the lower-cased strings. */
  lemma {:induction false} IgnoreCaseIsCompareOfLowered(s: string, t: string)
    ensures CompareToIgnoreCase(s, t) == CompareTo(ToLowerCase(s), ToLowerCase(t))
  {
    var ls, lt := ToLowerCase(s), ToLowerCase(t);
    if |s| > 0 && |t| > 0 {
      assert ls[0] == LowerChar(s[0]) && lt[0] == LowerChar(t[0]);
      if LowerChar(s[0]) == LowerChar(t[0]) {
        IgnoreCaseIsCompareOfLowered(s[1..], t[1..]);
        assert ToLowerCase(s[1..]) == ls[1..];
        assert ToLowerCase(t[1..]) == lt[1..];
      }
    }
  }

  /**
   * On strings without upper-case letters the two orderings agree: this is
   * what lets a list sorted by compareToIgnoreCase be searched by compareTo.
   */
  lemma {:induction false} IgnoreCaseIsNaturalWithoutUpper(s: string, t: string)
    requires forall i :: 0 <= i < |s| ==> !IsUpper(s[i])
    requires forall i :: 0 <= i < |t| ==> !IsUpper(t[i])
    ensures CompareToIgnoreCase(s, t) == CompareTo(s, t)
  {
    if |s| > 0 && |t| > 0 && s[0] == t[0] {
      IgnoreCaseIsNaturalWithoutUpper(s[1..], t[1..]);
    }
  }

  /** Swapping the arguments of compareToIgnoreCase negates the answer. */
  lemma IgnoreCaseAntisymmetric(s: string, t: string)
    ensures CompareToIgnoreCase(t, s) == -CompareToIgnoreCase(s, t)
  {
    IgnoreCaseIsCompareOfLowered(s, t);
    IgnoreCaseIsCompareOfLowered(t, s);
    CompareToAntisymmetric(ToLowerCase(s), ToLowerCase(t));
  }

  /** compareToIgnoreCase is transitive. */
  lemma IgnoreCaseTransitive(s: string, t: string, u: string)
    ensures CompareToIgnoreCase(s, t) <= 0 && CompareToIgnoreCase(t, u) <= 0 ==> CompareToIgnoreCase(s, u) <= 0
  {
    IgnoreCaseIsCompareOfLowered(s, t);
    IgnoreCaseIsCompareOfLowered(t, u);
    IgnoreCaseIsCompareOfLowered(s, u);
    CompareToTransitive(ToLowerCase(s), ToLowerCase(t), ToLowerCase(u));
  }
}
