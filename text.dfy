/** Substring containment on text, as Python's `t in s` and pandas' `str.contains`
    (for a pattern without regular-expression metacharacters) decide it. */
module Text {

  /** `t` occurs in `s` starting at position `i`. */
  predicate OccursAt(s: string, t: string, i: nat)
  {
    i + |t| <= |s| && s[i..i + |t|] == t
  }

  /** `t` is a prefix of `s`. */
  predicate IsPrefix(t: string, s: string)
  {
    |t| <= |s| && s[..|t|] == t
  }

  /** Does `t` occur anywhere in `s`? The empty string occurs in every string. */
  function Contains(s: string, t: string): bool
    decreases |s|
  {
    if IsPrefix(t, s) then true
    else if s == [] then false
    else Contains(s[1..], t)
  }

  /** Shifting the text by one character shifts every occurrence by one position. */
  lemma OccursAtTail(s: string, t: string, i: nat)
    requires s != []
    ensures OccursAt(s[1..], t, i) <==> OccursAt(s, t, i + 1)
  {
    if i + 1 + |t| <= |s| {
      assert s[1..][i..i + |t|] == s[i + 1..i + 1 + |t|];
    }
  }

  /** `Contains` holds exactly when there is a position at which `t` occurs in `s`. */
  lemma {:induction false} ContainsIff(s: string, t: string)
    ensures Contains(s, t) <==> exists i: nat :: OccursAt(s, t, i)
    decreases |s|
  {
    if IsPrefix(t, s) {
      assert s[0..|t|] == s[..|t|];
      assert OccursAt(s, t, 0);
    } else if s == [] {
      assert forall i: nat :: !OccursAt(s, t, i);
    } else {
      ContainsIff(s[1..], t);
      if Contains(s[1..], t) {
        var i: nat :| OccursAt(s[1..], t, i);
        OccursAtTail(s, t, i);
      } else {
        forall i: nat ensures !OccursAt(s, t, i) {
          if i == 0 {
            if |t| <= |s| {
              assert s[0..|t|] == s[..|t|];
            }
          } else {
            OccursAtTail(s, t, i - 1);
          }
        }
      }
    }
  }

  /** An occurrence at a known position is enough for `Contains`. */
  lemma ContainsAt(s: string, t: string, i: nat)
    requires OccursAt(s, t, i)
    ensures Contains(s, t)
  {
    ContainsIff(s, t);
  }

  /** A two-character string whose first character is never followed by its second
      does not occur. */
  lemma NoPairOccurrence(s: string, t: string)
    requires |t| == 2
    requires forall j :: 0 <= j < |s| - 1 && s[j] == t[0] ==> s[j + 1] != t[1]
    ensures !Contains(s, t)
  {
    forall i: nat ensures !OccursAt(s, t, i) {
      if i + 2 <= |s| && s[i] == t[0] {
        assert s[i..i + 2][1] == s[i + 1] != t[1];
      }
    }
    ContainsIff(s, t);
  }
}
