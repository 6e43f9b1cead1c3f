/** The alias generator: a counter shared by every copy, handing out
    `JDAL_generatedAlias<n>` to nodes that have no alias yet. The counter is
    explicit state here; callers pass it in and receive its next value. */
module Aliases {
  import opened Wrappers
  import opened Decimal

  const GeneratedPrefix: string := "JDAL_generatedAlias"

  /** Once the counter is above this value it restarts at zero. */
  const ResetThreshold: nat := 1000

  /** The alias generated from counter value `n`. */
  function GeneratedAlias(n: nat): (s: string)
    ensures |GeneratedPrefix| < |s| && s[..|GeneratedPrefix|] == GeneratedPrefix
  {
    GeneratedPrefix + NatToString(n)
  }

  /** After the prefix, a generated alias holds only decimal digits, and they
      read back as the counter value it was generated from. */
  lemma GeneratedAliasReadsBack(n: nat)
    ensures var s := GeneratedAlias(n);
            AllDigits(s[|GeneratedPrefix|..]) && ParseDecimal(s[|GeneratedPrefix|..]) == n
  {
    ParseNatToString(n);
    assert GeneratedAlias(n)[|GeneratedPrefix|..] == NatToString(n);
  }

  /** Two generated aliases coincide exactly when their numbers do. */
  lemma GeneratedAliasInjective(a: nat, b: nat)
    ensures GeneratedAlias(a) == GeneratedAlias(b) <==> a == b
  {
    if GeneratedAlias(a) == GeneratedAlias(b) {
      assert NatToString(a) == GeneratedAlias(a)[|GeneratedPrefix|..];
      assert NatToString(b) == GeneratedAlias(b)[|GeneratedPrefix|..];
      NatToStringInjective(a, b);
    }
  }

  /** What one call hands back: the node's alias and the counter's new value. */
  datatype Issued = Issued(alias: string, counter: nat)

  /** The counter as every request first leaves it: restarted at zero once
      it is past the threshold. */
  function Reset(counter: nat): nat {
    if counter > ResetThreshold then 0 else counter
  }

  /** The counter after a request for a fresh alias: reset, then
      incremented. */
  function Advance(counter: nat): nat {
    Reset(counter) + 1
  }

  /** Returns the alias of a node whose current alias is `current`; the node's
      alias becomes `Some(r.alias)` either way. The counter is reset before the
      alias is even looked at, so an aliased node can reset it too. */
  function GetOrCreateAlias(current: Option<string>, counter: nat): (r: Issued)
    ensures current.Some? ==> r.alias == current.value
    ensures current.Some? ==> r.counter == Reset(counter)
    ensures current.None? ==> r.counter == Advance(counter) && r.alias == GeneratedAlias(r.counter - 1)
    ensures current.None? && counter <= ResetThreshold ==> r.counter == counter + 1
    ensures current.None? && counter > ResetThreshold ==> r.alias == GeneratedAlias(0) && r.counter == 1
    ensures r.counter <= ResetThreshold + 1
  {
    var c := Reset(counter);
    match current
    case Some(a) => Issued(a, c)
    case None => Issued(GeneratedAlias(c), c + 1)
  }

  /** Asking again for the alias of a node that has just been given one
      returns the same alias and generates nothing. */
  lemma AliasIdempotent(current: Option<string>, counter: nat)
    ensures var first := GetOrCreateAlias(current, counter);
            var second := GetOrCreateAlias(Some(first.alias), first.counter);
            second.alias == first.alias
            && second.counter == Reset(first.counter)
  {
  }

  /** The counter after `n` requests for fresh aliases, starting from zero. */
  function CounterAfter(n: nat): nat {
    if n == 0 then 0 else Advance(CounterAfter(n - 1))
  }

  /** The alias handed to the fresh request numbered `n` (from zero). */
  function FreshAlias(n: nat): string {
    GetOrCreateAlias(None, CounterAfter(n)).alias
  }

  /** Before the first reset the counter simply counts the requests. */
  lemma {:induction false} CounterCountsUpToThreshold(n: nat)
    requires n <= ResetThreshold + 1
    ensures CounterAfter(n) == n
  {
    if n > 0 {
      CounterCountsUpToThreshold(n - 1);
    }
  }

  /** How residues modulo 1001 advance by one. */
  lemma ResidueStep(k: nat)
    ensures (k + 1) % (ResetThreshold + 1) ==
            if k % (ResetThreshold + 1) == ResetThreshold then 0 else k % (ResetThreshold + 1) + 1
  {
  }

  /** Adding one period does not change a residue modulo 1001. */
  lemma ResidueShift(k: nat)
    ensures (k + ResetThreshold + 1) % (ResetThreshold + 1) == k % (ResetThreshold + 1)
  {
  }

  /** After `n > 0` fresh requests the counter is one past the suffix last
      handed out, which runs through 0..1000 and then starts over. */
  lemma {:induction false} CounterAfterClosedForm(n: nat)
    ensures CounterAfter(n) == if n == 0 then 0 else (n - 1) % (ResetThreshold + 1) + 1
  {
    if n > 1 {
      var k: nat := n - 2;
      CounterAfterClosedForm(n - 1);
      assert CounterAfter(n - 1) == k % (ResetThreshold + 1) + 1;
      ResidueStep(k);
      assert n - 1 == k + 1;
    }
  }

  /** Starting from zero, the fresh request numbered `n` gets suffix
      `n mod 1001`: suffixes run 0..1000 and then start over at 0. */
  lemma FreshAliasCycles(n: nat)
    ensures FreshAlias(n) == GeneratedAlias(n % (ResetThreshold + 1))
  {
    CounterAfterClosedForm(n);
    if n > 0 {
      ResidueStep(n - 1);
    }
  }

  /** The fresh aliases repeat with period 1001. */
  lemma CounterPeriodic(n: nat)
    ensures FreshAlias(n + ResetThreshold + 1) == FreshAlias(n)
    ensures n > 0 ==> CounterAfter(n + ResetThreshold + 1) == CounterAfter(n)
  {
    assert FreshAlias(n + ResetThreshold + 1) == FreshAlias(n) by {
      FreshAliasCycles(n);
      FreshAliasCycles(n + ResetThreshold + 1);
      ResidueShift(n);
    }
    if n > 0 {
      CounterAfterShift(n - 1);
    }
  }

  /** The counter after request `m + 1` and after request `m + 1002` agree. */
  lemma CounterAfterShift(m: nat)
    ensures CounterAfter(m + 1 + ResetThreshold + 1) == CounterAfter(m + 1)
  {
    CounterAfterClosedForm(m + 1);
    CounterAfterClosedForm(m + 1 + ResetThreshold + 1);
    ResidueShift(m);
  }

  /** Two fresh requests get the same alias exactly when their numbers are
      congruent modulo 1001; within 1001 consecutive requests all differ. */
  lemma FreshAliasesCollideIffCongruent(i: nat, j: nat)
    ensures FreshAlias(i) == FreshAlias(j) <==> i % (ResetThreshold + 1) == j % (ResetThreshold + 1)
  {
    FreshAliasCycles(i);
    FreshAliasCycles(j);
    GeneratedAliasInjective(i % (ResetThreshold + 1), j % (ResetThreshold + 1));
  }

  /** The scenario the counter is known for: 1001 fresh requests use suffixes
      0 to 1000, and the next one reuses suffix 0. */
  lemma WrapAfterThousandAndOne()
    ensures FreshAlias(1000) == GeneratedAlias(1000)
    ensures FreshAlias(1001) == GeneratedAlias(0)
    ensures FreshAlias(1001) == FreshAlias(0)
  {
    FreshAliasCycles(1000);
    assert 1000 % (ResetThreshold + 1) == 1000;
    FreshAliasCycles(1001);
    assert 1001 % (ResetThreshold + 1) == 0;
    FreshAliasesCollideIffCongruent(0, 1001);
  }
}
