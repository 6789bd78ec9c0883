/** String operations the authentication endpoints rely on: slice reversal
    (`s[::-1]`), removal of every occurrence of a pattern (`s.replace(p, "")`)
    and removal of a leading prefix. Strings are sequences of code points. */
module Text {

  /** The characters of `s` in reverse order, as Python's `s[::-1]`. */
  function Reverse(s: string): (r: string)
    ensures |r| == |s|
    ensures forall i :: 0 <= i < |s| ==> r[i] == s[|s| - 1 - i]
  {
    if s == [] then [] else Reverse(s[1..]) + [s[0]]
  }

  /** Reversing `s + [c]` puts `c` in front of the reversal of `s`. */
  lemma {:induction false} ReverseSnoc(s: string, c: char)
    ensures Reverse(s + [c]) == [c] + Reverse(s)
  {
    if s == [] {
      assert [c][1..] == [];
    } else {
      assert (s + [c])[1..] == s[1..] + [c];
      ReverseSnoc(s[1..], c);
    }
  }

  /** Reversal is an involution. */
  lemma {:induction false} ReverseReverse(s: string)
    ensures Reverse(Reverse(s)) == s
  {
    if s != [] {
      ReverseSnoc(Reverse(s[1..]), s[0]);
      ReverseReverse(s[1..]);
      assert [s[0]] + s[1..] == s;
    }
  }

  /** Reversal is injective: distinct strings have distinct reversals. */
  lemma ReverseInjective(s: string, t: string)
    ensures Reverse(s) == Reverse(t) <==> s == t
  {
    ReverseReverse(s);
    ReverseReverse(t);
  }

  /** Reversal turns concatenation around. */
  lemma {:induction false} ReverseConcat(s: string, t: string)
    ensures Reverse(s + t) == Reverse(t) + Reverse(s)
    decreases |s|
  {
    if s == [] {
      assert s + t == t;
    } else {
      assert (s + t)[1..] == s[1..] + t;
      ReverseConcat(s[1..], t);
    }
  }

  /** `pat` occurs in `s` starting at index `i`. */
  predicate OccursAt(s: string, pat: string, i: nat)
  {
    i + |pat| <= |s| && s[i..i + |pat|] == pat
  }

  /** `pat` occurs somewhere in `s` (Python's `pat in s`). */
  predicate Occurs(s: string, pat: string)
  {
    exists i: nat | i <= |s| :: OccursAt(s, pat, i)
  }

  /** `s.replace(pat, "")` for a non-empty `pat`: scanning from the left,
      every non-overlapping occurrence of `pat` is dropped. */
  function RemoveAll(s: string, pat: string): (r: string)
    requires pat != []
    ensures |r| <= |s|
    ensures |s| < |pat| ==> r == s
    decreases |s|
  {
    if |s| < |pat| then s
    else if s[..|pat|] == pat then RemoveAll(s[|pat|..], pat)
    else [s[0]] + RemoveAll(s[1..], pat)
  }

  /** An occurrence in `s[1..]` is an occurrence in `s`, one place further. */
  lemma OccursInTail(s: string, pat: string, i: nat)
    requires s != [] && OccursAt(s[1..], pat, i)
    ensures OccursAt(s, pat, i + 1)
  {
    assert s[1..][i..i + |pat|] == s[i + 1..i + 1 + |pat|];
  }

  /** An occurrence in `s` past index 0 is an occurrence in `s[1..]`. */
  lemma OccursFromTail(s: string, pat: string, i: nat)
    requires s != [] && OccursAt(s, pat, i + 1)
    ensures OccursAt(s[1..], pat, i)
  {
    assert s[1..][i..i + |pat|] == s[i + 1..i + 1 + |pat|];
  }

  /** Removing a pattern that does not occur leaves the string as it was. */
  lemma {:induction false} RemoveAllAbsent(s: string, pat: string)
    requires pat != [] && !Occurs(s, pat)
    ensures RemoveAll(s, pat) == s
    decreases |s|
  {
    if |s| >= |pat| {
      assert !OccursAt(s, pat, 0);
      if Occurs(s[1..], pat) {
        var i: nat :| OccursAt(s[1..], pat, i);
        OccursInTail(s, pat, i);
        assert false;
      }
      RemoveAllAbsent(s[1..], pat);
      assert [s[0]] + s[1..] == s;
    }
  }

  /** Removal strictly shortens the string when the pattern occurs
      (`RemoveAllUnchangedIff` gives the converse). */
  lemma {:induction false} RemoveAllLength(s: string, pat: string)
    requires pat != []
    ensures Occurs(s, pat) ==> |RemoveAll(s, pat)| < |s|
    decreases |s|
  {
    if |s| >= |pat| {
      if s[..|pat|] == pat {
        RemoveAllLength(s[|pat|..], pat);
      } else {
        RemoveAllLength(s[1..], pat);
        if Occurs(s, pat) {
          var i: nat :| i <= |s| && OccursAt(s, pat, i);
          assert i != 0 by {
            assert s[0..|pat|] == s[..|pat|];
          }
          OccursFromTail(s, pat, i - 1);
        }
      }
    }
  }

  /** `s.replace(pat, "") == s` holds exactly when `pat` does not occur in `s`. */
  lemma RemoveAllUnchangedIff(s: string, pat: string)
    requires pat != []
    ensures RemoveAll(s, pat) == s <==> !Occurs(s, pat)
  {
    RemoveAllLength(s, pat);
    if !Occurs(s, pat) {
      RemoveAllAbsent(s, pat);
    }
  }

  /** A leading occurrence is dropped and the scan resumes right after it. */
  lemma RemoveAllLeading(pat: string, t: string)
    requires pat != []
    ensures RemoveAll(pat + t, pat) == RemoveAll(t, pat)
  {
    assert (pat + t)[..|pat|] == pat;
    assert (pat + t)[|pat|..] == t;
  }

  /** `pat + t` loses exactly its leading `pat` when `t` does not contain `pat`. */
  lemma RemoveAllPrefixOnly(pat: string, t: string)
    requires pat != [] && !Occurs(t, pat)
    ensures RemoveAll(pat + t, pat) == t
  {
    RemoveAllLeading(pat, t);
    RemoveAllAbsent(t, pat);
  }

  /** `s.removeprefix(pat)`: `s` without a leading `pat`, or `s` itself. */
  function StripPrefix(s: string, pat: string): (r: string)
    ensures pat <= s ==> pat + r == s
    ensures !(pat <= s) ==> r == s
  {
    if pat <= s then s[|pat|..] else s
  }

  lemma StripPrefixOf(pat: string, t: string)
    ensures StripPrefix(pat + t, pat) == t
  {
    assert pat <= pat + t;
    assert (pat + t)[|pat|..] == t;
  }
}
