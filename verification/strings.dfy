/** Python's substring test `sub in s`, as used by the hostname classifier.
    `Occurs` is the definition (some offset where `sub` sits in `s`);
    `Contains` is the left-to-right search the model evaluates, and
    `ContainsIsOccurs` proves the two agree on every input. */
module Strings {

  /** `sub` sits in `s` starting at offset `i`. */
  predicate OccursAt(s: string, sub: string, i: nat) {
    i + |sub| <= |s| && s[i..i + |sub|] == sub
  }

  /** `sub in s`: there is an offset at which `sub` sits in `s`. */
  ghost predicate Occurs(s: string, sub: string) {
    exists i: nat :: OccursAt(s, sub, i)
  }

  /** The characters `sub[k..]` match `s` from offset `i + k` on. */
  predicate MatchFrom(s: string, sub: string, i: nat, k: nat)
    decreases |sub| - k
  {
    k >= |sub| || (i + k < |s| && s[i + k] == sub[k] && MatchFrom(s, sub, i, k + 1))
  }

  /** Some offset at or after `i` holds `sub`. */
  predicate SearchFrom(s: string, sub: string, i: nat)
    decreases |s| - i
  {
    if i + |sub| > |s| then false
    else MatchFrom(s, sub, i, 0) || SearchFrom(s, sub, i + 1)
  }

  predicate Contains(s: string, sub: string) {
    SearchFrom(s, sub, 0)
  }

  lemma {:induction false} MatchFromIsSliceEquality(s: string, sub: string, i: nat, k: nat)
    requires i + |sub| <= |s| && k <= |sub|
    ensures MatchFrom(s, sub, i, k) <==> s[i + k..i + |sub|] == sub[k..]
    decreases |sub| - k
  {
    if k < |sub| {
      MatchFromIsSliceEquality(s, sub, i, k + 1);
      var a, b := s[i + k..i + |sub|], sub[k..];
      assert a == [s[i + k]] + s[i + k + 1..i + |sub|];
      assert b == [sub[k]] + sub[k + 1..];
      if a == b {
        assert a[0] == b[0];
      }
    }
  }

  lemma {:induction false} SearchFromIsOccursAfter(s: string, sub: string, i: nat)
    ensures SearchFrom(s, sub, i) <==> exists j: nat :: i <= j && OccursAt(s, sub, j)
    decreases |s| - i
  {
    if i + |sub| > |s| {
      forall j: nat | i <= j
        ensures !OccursAt(s, sub, j)
      {
      }
    } else {
      MatchFromIsSliceEquality(s, sub, i, 0);
      SearchFromIsOccursAfter(s, sub, i + 1);
      assert sub[0..] == sub;
      if !MatchFrom(s, sub, i, 0) {
        assert !OccursAt(s, sub, i);
      } else {
        assert OccursAt(s, sub, i);
      }
    }
  }

  /** The search answers exactly Python's `sub in s`. */
  lemma ContainsIsOccurs(s: string, sub: string)
    ensures Contains(s, sub) <==> Occurs(s, sub)
  {
    SearchFromIsOccursAfter(s, sub, 0);
  }

  /** Every string contains its own substrings: a hostname that embeds a
      keyword is matched by the search, wherever the keyword sits. */
  lemma ContainsEmbedded(prefix: string, sub: string, suffix: string)
    ensures Contains(prefix + sub + suffix, sub)
  {
    var s := prefix + sub + suffix;
    assert s[|prefix|..|prefix| + |sub|] == sub;
    assert OccursAt(s, sub, |prefix|);
    ContainsIsOccurs(s, sub);
  }
  /** A string lacking one of the characters of `sub` does not contain
      `sub`. */
  lemma MissingCharacter(s: string, sub: string, k: nat)
    requires k < |sub| && sub[k] !in s
    ensures !Contains(s, sub)
  {
    ContainsIsOccurs(s, sub);
  }
}
