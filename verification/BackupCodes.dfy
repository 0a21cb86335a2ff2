/** Single-use backup codes: a matching stored hash is removed from the list. */
module BackupCodes {
  import opened Prelude

  /** Where the first entry that satisfies `ok` is; |stored| when there is none. */
  function FirstMatch<H>(stored: seq<H>, ok: H -> bool): (k: nat)
    ensures k <= |stored| && (k < |stored| ==> ok(stored[k]))
    ensures forall j | 0 <= j < k :: !ok(stored[j])
  {
    if stored == [] || ok(stored[0]) then 0
    else
      assert forall j | 0 < j < |stored| :: stored[j] == stored[1..][j - 1];
      1 + FirstMatch(stored[1..], ok)
  }

  function Without<H>(s: seq<H>, k: nat): (r: seq<H>)
    requires k < |s|
  {
    s[..k] + s[k + 1..]
  }

  /** The list with its first match spent; None when nothing matches. */
  function Spend<H>(stored: seq<H>, ok: H -> bool): Option<seq<H>> {
    var k := FirstMatch(stored, ok);
    if k < |stored| then Some(Without(stored, k)) else None
  }

  /** How many entries satisfy `ok`. */
  function Matches<H>(stored: seq<H>, ok: H -> bool): nat {
    if stored == [] then 0 else (if ok(stored[0]) then 1 else 0) + Matches(stored[1..], ok)
  }

  /** The list without its first n matching entries. */
  function WithoutFirst<H>(stored: seq<H>, ok: H -> bool, n: nat): seq<H> {
    if stored == [] || n == 0 then stored
    else if ok(stored[0]) then WithoutFirst(stored[1..], ok, n - 1)
    else [stored[0]] + WithoutFirst(stored[1..], ok, n)
  }

  /** `ok` is the password check against one stored hash, errors counting as a
      mismatch. The check succeeds iff some entry matches, and then it removes
      exactly the first such entry and keeps the others in order. */
  method VerifyBackupCode<H>(stored: seq<H>, ok: H -> bool) returns (r: Option<seq<H>>)
    ensures r == Spend(stored, ok)
    ensures r.None? <==> forall i | 0 <= i < |stored| :: !ok(stored[i])
    ensures r.Some? ==>
              exists k | 0 <= k < |stored| ::
                && ok(stored[k]) && (forall j | 0 <= j < k :: !ok(stored[j]))
                && r.value == stored[..k] + stored[k + 1..]
  {
    var remaining: seq<H> := [];
    var matched := false;
    ghost var k := FirstMatch(stored, ok);
    for i := 0 to |stored|
      invariant matched <==> k < i
      invariant remaining == if matched then stored[..k] + stored[k + 1..i] else stored[..i]
    {
      if !matched && ok(stored[i]) {
        matched := true;
      } else {
        remaining := remaining + [stored[i]];
      }
    }
    if matched {
      assert remaining == Without(stored, k);
      return Some(remaining);
    } else {
      return None;
    }
  }

  lemma SpendStep<H>(stored: seq<H>, ok: H -> bool)
    requires stored != []
    ensures Spend(stored, ok) ==
            if ok(stored[0]) then Some(stored[1..])
            else if Spend(stored[1..], ok).None? then None
            else Some([stored[0]] + Spend(stored[1..], ok).value)
  {
    var k := FirstMatch(stored, ok);
    if ok(stored[0]) {
      assert Without(stored, 0) == stored[1..];
    } else if k < |stored| {
      assert Without(stored, k) == [stored[0]] + Without(stored[1..], k - 1);
    }
  }

  // ----- the same code again and again -----

  /** The code presented n times, each time to the list the previous check returned. */
  function Reused<H>(stored: seq<H>, ok: H -> bool, n: nat): Option<seq<H>> {
    if n == 0 then Some(stored)
    else
      match Reused(stored, ok, n - 1)
      case None => None
      case Some(left) => Spend(left, ok)
  }

  lemma {:induction false} SpendWithoutFirst<H>(stored: seq<H>, ok: H -> bool, n: nat)
    requires n <= Matches(stored, ok)
    ensures Spend(WithoutFirst(stored, ok, n), ok) ==
            if n < Matches(stored, ok) then Some(WithoutFirst(stored, ok, n + 1)) else None
  {
    if stored == [] {
    } else if ok(stored[0]) && n != 0 {
      SpendWithoutFirst(stored[1..], ok, n - 1);
    } else if !ok(stored[0]) {
      var rest := WithoutFirst(stored[1..], ok, n);
      SpendWithoutFirst(stored[1..], ok, n);
      SpendStep([stored[0]] + rest, ok);
      assert ([stored[0]] + rest)[1..] == rest;
      assert WithoutFirst(stored, ok, n) == [stored[0]] + rest;
    } else {
      SpendStep(stored, ok);
      assert WithoutFirst(stored[1..], ok, 0) == stored[1..];
    }
  }

  /** One code can be used exactly as often as the list has matching entries, and n
      uses remove the first n of them. */
  lemma {:induction false} UsableOncePerEntry<H>(stored: seq<H>, ok: H -> bool, n: nat)
    ensures Reused(stored, ok, n) ==
            if n <= Matches(stored, ok) then Some(WithoutFirst(stored, ok, n)) else None
  {
    if n != 0 {
      UsableOncePerEntry(stored, ok, n - 1);
      if n - 1 <= Matches(stored, ok) {
        SpendWithoutFirst(stored, ok, n - 1);
      }
    }
  }

  lemma ReusedTwice<H>(stored: seq<H>, ok: H -> bool)
    requires Spend(stored, ok).Some?
    ensures Spend(Spend(stored, ok).value, ok).Some? <==> Matches(stored, ok) >= 2
  {
    UsableOncePerEntry(stored, ok, 2);
    assert Reused(stored, ok, 0) == Some(stored);
    assert Reused(stored, ok, 1) == Spend(stored, ok);
  }

  // ----- runs over many codes -----

  /** What is left after the codes were presented in turn; a failed check leaves
      the list alone. */
  function Left<C, H>(stored: seq<H>, check: (C, H) -> bool, codes: seq<C>): seq<H> {
    if codes == [] then stored
    else
      var before := Left(stored, check, codes[..|codes| - 1]);
      match Spend(before, h => check(codes[|codes| - 1], h))
      case None => before
      case Some(after) => after
  }

  /** How many of those checks succeeded with a code that satisfies `who`. */
  function Successes<C, H>(stored: seq<H>, check: (C, H) -> bool, codes: seq<C>, who: C -> bool): nat {
    if codes == [] then 0
    else
      var init, last := codes[..|codes| - 1], codes[|codes| - 1];
      Successes(stored, check, init, who) +
      if who(last) && Spend(Left(stored, check, init), h => check(last, h)).Some? then 1 else 0
  }

  /** A check loses one entry of the kind it spends and never gains one of another. */
  lemma {:induction false} SpendCounts<H>(stored: seq<H>, ok: H -> bool, kind: H -> bool)
    requires Spend(stored, ok).Some?
    ensures |Spend(stored, ok).value| == |stored| - 1
    ensures Matches(Spend(stored, ok).value, kind) <= Matches(stored, kind)
    ensures (forall h :: ok(h) ==> kind(h)) ==>
              Matches(Spend(stored, ok).value, kind) == Matches(stored, kind) - 1
  {
    SpendStep(stored, ok);
    if !ok(stored[0]) {
      SpendCounts(stored[1..], ok, kind);
      assert Spend(stored, ok).value[1..] == Spend(stored[1..], ok).value;
    }
  }

  /** In every run, every success removed one entry, and the successes of any set of
      codes never exceed the entries that some code of the set matches. */
  lemma {:induction false} SuccessesArePaidFor<C, H>(
    stored: seq<H>, check: (C, H) -> bool, codes: seq<C>, who: C -> bool, kind: H -> bool)
    requires forall c, h :: who(c) && check(c, h) ==> kind(h)
    ensures |Left(stored, check, codes)| + Successes(stored, check, codes, c => true) == |stored|
    ensures Matches(Left(stored, check, codes), kind) + Successes(stored, check, codes, who)
            <= Matches(stored, kind)
  {
    if codes != [] {
      var init, last := codes[..|codes| - 1], codes[|codes| - 1];
      SuccessesArePaidFor(stored, check, init, who, kind);
      var before := Left(stored, check, init);
      var ok := h => check(last, h);
      if Spend(before, ok).Some? {
        SpendCounts(before, ok, kind);
      }
    }
  }
}
