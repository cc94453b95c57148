/**
 * normalizeUniversityName: the comparison key of a university name. Four
 * stages, in this order: delete every character outside [a-zA-Z0-9 +], turn
 * each run of spaces into one space, lower-case, trim.
 */
module NameNormalizer {
  import opened JavaString

  /** The characters of the regular-expression class [a-zA-Z0-9 +]. */
  predicate Allowed(c: char) {
    'a' <= c <= 'z' || 'A' <= c <= 'Z' || '0' <= c <= '9' || c == ' ' || c == '+'
  }

  /** The characters a normalised name may contain. */
  predicate CanonicalChar(c: char) {
    'a' <= c <= 'z' || '0' <= c <= '9' || c == ' ' || c == '+'
  }

  predicate NoDoubleSpace(s: string) {
    forall i :: 0 <= i < |s| - 1 ==> !(s[i] == ' ' && s[i + 1] == ' ')
  }

  /**
   * A normalised name: only lower-case letters, digits, '+' and single
   * spaces between words, with no space at either end.
   */
  predicate IsCanonical(s: string) {
    && (forall i :: 0 <= i < |s| ==> CanonicalChar(s[i]))
    && NoDoubleSpace(s)
    && (|s| > 0 ==> s[0] != ' ' && s[|s| - 1] != ' ')
  }

  /** Stage 1, replaceAll("[^a-zA-Z0-9 +]", ""): disallowed characters are deleted, not replaced. */
  function RemoveDisallowed(s: string): (r: string)
    ensures |r| <= |s|
    ensures forall i :: 0 <= i < |r| ==> Allowed(r[i])
  {
    if s == [] then []
    else if Allowed(s[0]) then [s[0]] + RemoveDisallowed(s[1..])
    else RemoveDisallowed(s[1..])
  }

  /** Stage 1 keeps exactly the allowed characters of its input. */
  lemma {:induction false} RemoveDisallowedMembers(s: string)
    ensures forall c :: c in RemoveDisallowed(s) <==> c in s && Allowed(c)
  {
    if s != [] {
      RemoveDisallowedMembers(s[1..]);
      assert s == [s[0]] + s[1..];
    }
  }

  /** Stage 2, replaceAll(" +", " "): every run of spaces shrinks to a single space. */
  function CollapseSpaces(s: string): (r: string)
    ensures |r| <= |s|
    ensures NoDoubleSpace(r)
    ensures |s| > 0 ==> |r| > 0 && r[0] == s[0]
  {
    if |s| <= 1 then s
    else if s[0] == ' ' && s[1] == ' ' then CollapseSpaces(s[1..])
    else [s[0]] + CollapseSpaces(s[1..])
  }

  /** Stage 2 only drops spaces next to a space: the set of characters stays the same. */
  lemma {:induction false} CollapseSpacesMembers(s: string)
    ensures forall c :: c in CollapseSpaces(s) <==> c in s
  {
    if |s| > 1 {
      CollapseSpacesMembers(s[1..]);
      assert s == [s[0]] + s[1..];
    }
  }

  /** The whole pipeline; every stage only deletes characters or changes their case. */
  function Normalize(s: string): string {
    Trim(ToLowerCase(CollapseSpaces(RemoveDisallowed(s))))
  }

  /** Normalising always gives a canonical name. */
  lemma NormalizeIsCanonical(s: string)
    ensures IsCanonical(Normalize(s))
  {
    var spaced := CollapseSpaces(RemoveDisallowed(s));
    RemoveDisallowedMembers(s);
    CollapseSpacesMembers(RemoveDisallowed(s));
    forall i | 0 <= i < |spaced| ensures Allowed(spaced[i]) {
      assert spaced[i] in spaced;
    }
    LoweredIsCanonicalBeforeTrim(spaced);
    TrimKeepsCanonical(ToLowerCase(spaced));
  }

  /** Lower-casing a string of allowed characters gives canonical characters and keeps spaces where they were. */
  lemma LoweredIsCanonicalBeforeTrim(s: string)
    requires forall i :: 0 <= i < |s| ==> Allowed(s[i])
    requires NoDoubleSpace(s)
    ensures forall i :: 0 <= i < |s| ==> CanonicalChar(ToLowerCase(s)[i])
    ensures NoDoubleSpace(ToLowerCase(s))
  {
    var l := ToLowerCase(s);
    forall i | 0 <= i < |s| ensures CanonicalChar(l[i]) && (l[i] == ' ' <==> s[i] == ' ') {
      assert l[i] == LowerChar(s[i]);
    }
  }

  /** A slice of a string of canonical characters without double spaces keeps both properties. */
  lemma SliceKeepsCanonicalChars(s: string, lo: nat, hi: nat)
    requires lo <= hi <= |s|
    requires forall i :: 0 <= i < |s| ==> CanonicalChar(s[i])
    requires NoDoubleSpace(s)
    ensures forall i :: 0 <= i < hi - lo ==> CanonicalChar(s[lo..hi][i])
    ensures NoDoubleSpace(s[lo..hi])
  {
    var t := s[lo..hi];
    forall i | 0 <= i < |t| - 1 ensures !(t[i] == ' ' && t[i + 1] == ' ') {
      assert t[i] == s[lo + i] && t[i + 1] == s[lo + i + 1];
    }
  }

  /** Trimming a string of canonical characters without double spaces leaves a canonical name. */
  lemma TrimKeepsCanonical(s: string)
    requires forall i :: 0 <= i < |s| ==> CanonicalChar(s[i])
    requires NoDoubleSpace(s)
    ensures IsCanonical(Trim(s))
  {
    var lead := TrimLeading(s);
    SliceKeepsCanonicalChars(s, |s| - |lead|, |s|);
    var r := TrimTrailing(lead);
    SliceKeepsCanonicalChars(lead, 0, |r|);
  }

  /** Stage 1 leaves a string of allowed characters unchanged. */
  lemma {:induction false} RemoveDisallowedKeepsAllowed(s: string)
    requires forall i :: 0 <= i < |s| ==> Allowed(s[i])
    ensures RemoveDisallowed(s) == s
  {
    if s != [] {
      RemoveDisallowedKeepsAllowed(s[1..]);
    }
  }

  /** Stage 2 leaves a string without double spaces unchanged. */
  lemma {:induction false} CollapseKeepsSingleSpaces(s: string)
    requires NoDoubleSpace(s)
    ensures CollapseSpaces(s) == s
  {
    if |s| > 1 {
      assert NoDoubleSpace(s[1..]) by {
        forall i | 0 <= i < |s[1..]| - 1 ensures !(s[1..][i] == ' ' && s[1..][i + 1] == ' ') {
          assert s[1..][i] == s[i + 1] && s[1..][i + 1] == s[i + 2];
        }
      }
      CollapseKeepsSingleSpaces(s[1..]);
    }
  }

  /**
   * A tidy name: allowed characters only, single spaces, none at either end.
   * Normalising it changes nothing but the case of its letters.
   */
  predicate IsTidy(s: string) {
    && (forall i :: 0 <= i < |s| ==> Allowed(s[i]))
    && NoDoubleSpace(s)
    && (|s| > 0 ==> s[0] != ' ' && s[|s| - 1] != ' ')
  }

  lemma TidyNormalizesToLowerCase(s: string)
    requires IsTidy(s)
    ensures Normalize(s) == ToLowerCase(s)
  {
    RemoveDisallowedKeepsAllowed(s);
    CollapseKeepsSingleSpaces(s);
    var l := ToLowerCase(s);
    if |s| > 0 {
      assert l[0] == LowerChar(s[0]) && l[|l| - 1] == LowerChar(s[|s| - 1]);
    }
    TrimmedIsFixed(l);
  }

  /** A canonical name normalises to itself. */
  lemma CanonicalNormalizesToItself(s: string)
    requires IsCanonical(s)
    ensures Normalize(s) == s
  {
    CanonicalIsTidy(s);
    TidyNormalizesToLowerCase(s);
    CanonicalHasNoUpper(s);
    LowerCaseWithoutUpper(s);
  }

  /** A canonical name has no upper-case letter. */
  lemma CanonicalHasNoUpper(s: string)
    requires IsCanonical(s)
    ensures forall i :: 0 <= i < |s| ==> !IsUpper(s[i])
  {
  }

  /** Canonical characters are allowed ones, so a canonical name is tidy. */
  lemma CanonicalIsTidy(s: string)
    requires IsCanonical(s)
    ensures IsTidy(s)
  {
  }

  /** The canonical names are exactly the fixed points of normalisation. */
  lemma CanonicalIsFixedPoint(s: string)
    ensures IsCanonical(s) <==> Normalize(s) == s
  {
    if IsCanonical(s) {
      CanonicalNormalizesToItself(s);
    } else {
      NormalizeIsCanonical(s);
    }
  }

  /** Normalisation is idempotent. */
  lemma NormalizeIdempotent(s: string)
    ensures Normalize(Normalize(s)) == Normalize(s)
  {
    NormalizeIsCanonical(s);
    CanonicalNormalizesToItself(Normalize(s));
  }

  /** Lower-casing first or last makes no difference to stage 1: case never decides whether a character is allowed. */
  lemma {:induction false} RemoveDisallowedIgnoresCase(s: string)
    ensures RemoveDisallowed(ToLowerCase(s)) == ToLowerCase(RemoveDisallowed(s))
  {
    if s != [] {
      var l := ToLowerCase(s);
      assert l[0] == LowerChar(s[0]);
      assert Allowed(l[0]) <==> Allowed(s[0]);
      assert l[1..] == ToLowerCase(s[1..]);
      RemoveDisallowedIgnoresCase(s[1..]);
      LowerCaseAppend([s[0]], RemoveDisallowed(s[1..]));
    }
  }

  /** Lower-casing first or last makes no difference to stage 2: case never turns a character into a space. */
  lemma {:induction false} CollapseSpacesIgnoresCase(s: string)
    ensures CollapseSpaces(ToLowerCase(s)) == ToLowerCase(CollapseSpaces(s))
  {
    if |s| > 1 {
      var l := ToLowerCase(s);
      assert l[0] == LowerChar(s[0]) && l[1] == LowerChar(s[1]);
      assert l[0] == ' ' <==> s[0] == ' ';
      assert l[1] == ' ' <==> s[1] == ' ';
      assert l[1..] == ToLowerCase(s[1..]);
      CollapseSpacesIgnoresCase(s[1..]);
      LowerCaseAppend([s[0]], CollapseSpaces(s[1..]));
    }
  }

  /** Letter case never matters: a name and its lower-cased form normalise alike. */
  lemma NormalizeIgnoresCase(s: string)
    ensures Normalize(ToLowerCase(s)) == Normalize(s)
  {
    RemoveDisallowedIgnoresCase(s);
    CollapseSpacesIgnoresCase(RemoveDisallowed(s));
    LowerCaseIdempotent(CollapseSpaces(RemoveDisallowed(s)));
  }

  /** Two names that differ only in the case of their letters normalise alike. */
  lemma SameUpToCaseSameNormal(s: string, t: string)
    requires ToLowerCase(s) == ToLowerCase(t)
    ensures Normalize(s) == Normalize(t)
  {
    NormalizeIgnoresCase(s);
    NormalizeIgnoresCase(t);
  }

  /** Stage 1 works character by character, so it distributes over concatenation. */
  lemma {:induction false} RemoveDisallowedAppend(a: string, b: string)
    ensures RemoveDisallowed(a + b) == RemoveDisallowed(a) + RemoveDisallowed(b)
  {
    if a == [] {
      assert a + b == b;
    } else {
      assert (a + b)[0] == a[0] && (a + b)[1..] == a[1..] + b;
      RemoveDisallowedAppend(a[1..], b);
    }
  }

  /**
   * A disallowed character (an '&', a tab, a newline, ...) is deleted without
   * leaving a space behind: the name normalises as if it were not there.
   */
  lemma DisallowedCharIsDeleted(p: string, x: char, q: string)
    requires !Allowed(x)
    ensures Normalize(p + [x] + q) == Normalize(p + q)
  {
    RemoveDisallowedAppend(p + [x], q);
    RemoveDisallowedAppend(p, [x]);
    RemoveDisallowedAppend(p, q);
    assert RemoveDisallowed([x]) == [];
    assert RemoveDisallowed(p + [x] + q) == RemoveDisallowed(p + q);
  }

  /** Tabs and line breaks are disallowed characters too: they vanish rather than separate words. */
  lemma TabAndNewlineAreDeleted(p: string, q: string)
    ensures Normalize(p + "\t" + q) == Normalize(p + q)
    ensures Normalize(p + "\n" + q) == Normalize(p + q)
  {
    DisallowedCharIsDeleted(p, '\t', q);
    DisallowedCharIsDeleted(p, '\n', q);
  }

  /** A name made only of spaces and disallowed characters (the empty name included) normalises to "". */
  lemma BlankNormalizesToEmpty(s: string)
    requires forall i :: 0 <= i < |s| ==> s[i] == ' ' || !Allowed(s[i])
    ensures Normalize(s) == ""
  {
    var spaced := CollapseSpaces(RemoveDisallowed(s));
    RemoveDisallowedMembers(s);
    CollapseSpacesMembers(RemoveDisallowed(s));
    forall i | 0 <= i < |spaced| ensures spaced[i] == ' ' {
      assert spaced[i] in spaced;
    }
    var lowered := ToLowerCase(spaced);
    assert forall i :: 0 <= i < |lowered| ==> lowered[i] == ' ';
    TrimLeadingBlank(lowered);
  }

  /** Trimming a string of characters at most ' ' removes all of it. */
  lemma {:induction false} TrimLeadingBlank(s: string)
    requires forall i :: 0 <= i < |s| ==> s[i] <= ' '
    ensures TrimLeading(s) == []
  {
    if s != [] {
      TrimLeadingBlank(s[1..]);
    }
  }

  /** Space runs never cross a non-space character, so collapsing splits there. */
  lemma {:induction false} CollapseAppend(a: string, b: string)
    requires a != [] && a[|a| - 1] != ' '
    ensures CollapseSpaces(a + b) == CollapseSpaces(a) + CollapseSpaces(b)
  {
    if |a| == 1 {
      if b != [] {
        assert (a + b)[1..] == b;
      }
    } else {
      assert (a + b)[0] == a[0] && (a + b)[1] == a[1];
      assert (a + b)[1..] == a[1..] + b;
      CollapseAppend(a[1..], b);
    }
  }

  /**
   * The '&' quirk, first half: a disallowed character between two parts of a
   * tidy name vanishes and the parts run together ("A&B College" gives
   * "ab college").
   */
  lemma DeletedCharJoinsNeighbours(a: string, x: char, b: string)
    requires !Allowed(x)
    requires IsTidy(a + b)
    ensures Normalize(a + [x] + b) == ToLowerCase(a + b)
  {
    DisallowedCharIsDeleted(a, x, b);
    TidyNormalizesToLowerCase(a + b);
  }

  /** A run of two spaces collapses exactly as a single space does, whatever surrounds it. */
  lemma {:induction false} DoubleSpaceCollapses(u: string, v: string)
    ensures CollapseSpaces(u + "  " + v) == CollapseSpaces(u + " " + v)
  {
    var d, e := u + "  " + v, u + " " + v;
    if u == [] {
      assert d[1..] == e;
    } else {
      assert d[0] == e[0] == u[0] && d[1] == e[1];
      assert d[1..] == u[1..] + "  " + v && e[1..] == u[1..] + " " + v;
      DoubleSpaceCollapses(u[1..], v);
    }
  }

  /** A double space anywhere in a name normalises as a single space. */
  lemma DoubleSpaceNormalizesAsSingle(u: string, v: string)
    ensures Normalize(u + "  " + v) == Normalize(u + " " + v)
  {
    RemoveDisallowedAppend(u + "  ", v);
    RemoveDisallowedAppend(u, "  ");
    RemoveDisallowedAppend(u + " ", v);
    RemoveDisallowedAppend(u, " ");
    assert RemoveDisallowed("  ") == "  " && RemoveDisallowed(" ") == " ";
    DoubleSpaceCollapses(RemoveDisallowed(u), RemoveDisallowed(v));
    SameSpacedSameNormal(u + "  " + v, u + " " + v);
  }

  /** Two non-empty tidy names joined by one space form a tidy name. */
  lemma JoinWithSpaceIsTidy(a: string, b: string)
    requires IsTidy(a) && IsTidy(b) && a != [] && b != []
    ensures IsTidy(a + " " + b)
  {
    var joined := a + " " + b;
    forall i | 0 <= i < |joined| - 1 ensures !(joined[i] == ' ' && joined[i + 1] == ' ') {
      if i < |a| - 1 {
        assert joined[i] == a[i] && joined[i + 1] == a[i + 1];
      } else if i >= |a| + 1 {
        assert joined[i] == b[i - |a| - 1] && joined[i + 1] == b[i - |a|];
      }
    }
  }

  /** Between two tidy names, a double space collapses to one. */
  lemma CollapseDoubleSpaceBetween(a: string, b: string)
    requires IsTidy(a) && IsTidy(b) && a != [] && b != []
    ensures CollapseSpaces(a + "  " + b) == a + " " + b
  {
    CollapseAppend(a, "  " + b);
    assert a + "  " + b == a + ("  " + b);
    assert ("  " + b)[1..] == " " + b;
    assert NoDoubleSpace(" " + b) by {
      forall i | 0 <= i < |b| ensures (" " + b)[i + 1] == b[i] {}
    }
    CollapseKeepsSingleSpaces(" " + b);
    CollapseKeepsSingleSpaces(a);
  }

  /** Two tidy names with a double space between normalise as if the space were single. */
  lemma NormalizeDoubleSpaceBetween(a: string, b: string)
    requires IsTidy(a) && IsTidy(b) && a != [] && b != []
    ensures Normalize(a + "  " + b) == ToLowerCase(a + " " + b)
  {
    var joined := a + " " + b;
    JoinWithSpaceIsTidy(a, b);
    DoubleSpaceJoinIsAllowed(a, b);
    CollapseDoubleSpaceBetween(a, b);
    RemoveDisallowedKeepsAllowed(joined);
    CollapseKeepsSingleSpaces(joined);
    SameSpacedSameNormal(a + "  " + b, joined);
    TidyNormalizesToLowerCase(joined);
  }

  /** Two tidy names with a double space between are made of allowed characters only. */
  lemma DoubleSpaceJoinIsAllowed(a: string, b: string)
    requires IsTidy(a) && IsTidy(b)
    ensures RemoveDisallowed(a + "  " + b) == a + "  " + b
  {
    var x := a + "  " + b;
    forall i | 0 <= i < |x| ensures Allowed(x[i]) {
      if i < |a| {
        assert x[i] == a[i];
      } else if i < |a| + 2 {
        assert x[i] == ' ';
      } else {
        assert x[i] == b[i - |a| - 2];
      }
    }
    RemoveDisallowedKeepsAllowed(x);
  }

  /** Normalisation only depends on what the first two stages leave. */
  lemma SameSpacedSameNormal(x: string, y: string)
    requires CollapseSpaces(RemoveDisallowed(x)) == CollapseSpaces(RemoveDisallowed(y))
    ensures Normalize(x) == Normalize(y)
  {
  }

  /**
   * The '&' quirk, second half: with spaces around it, the same character
   * leaves one space behind ("A & B  College" gives "a b college"), so the
   * two spellings never match.
   */
  lemma SpacedCharKeepsNeighboursApart(a: string, x: char, b: string)
    requires !Allowed(x)
    requires IsTidy(a) && IsTidy(b) && a != [] && b != []
    ensures Normalize(a + " " + [x] + " " + b) == ToLowerCase(a + " " + b)
  {
    assert a + " " + [x] + " " + b == (a + " ") + [x] + (" " + b);
    assert (a + " ") + (" " + b) == a + "  " + b;
    DisallowedCharIsDeleted(a + " ", x, " " + b);
    NormalizeDoubleSpaceBetween(a, b);
  }
}
