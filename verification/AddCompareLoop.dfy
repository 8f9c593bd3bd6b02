/** Why add_compare may stop early. */
module AddCompareLoop {
  import opened Limbs
  import opened LimbLemmas

  /** How far c leads a + b, judged by the limbs from k up. */
  function Lead(a: seq<Limb>, b: seq<Limb>, c: seq<Limb>, k: nat): int
    requires |a| == |b| == |c| && k <= |c|
  {
    Val(c[k..]) - Val(a[k..]) - Val(b[k..])
  }

  lemma NothingAbove(a: seq<Limb>, b: seq<Limb>, c: seq<Limb>)
    requires |a| == |b| == |c|
    ensures Lead(a, b, c, |c|) == 0
  {
  }

  lemma LeadStep(a: seq<Limb>, b: seq<Limb>, c: seq<Limb>, k: nat)
    requires |a| == |b| == |c| && k < |c|
    ensures Lead(a, b, c, k) == 0x1_0000_0000 * Lead(a, b, c, k + 1) + c[k] - a[k] - b[k]
    ensures Lead(a, b, c, k) < 0 ==> Val(a) + Val(b) > Val(c)
    ensures Lead(a, b, c, k) > 1 ==> Val(a) + Val(b) < Val(c)
  {
    ValDrop(a, k);
    ValDrop(b, k);
    ValDrop(c, k);
    hide Val;
    SettledDifference(a, b, c, k);
  }

  lemma WholeLead(a: seq<Limb>, b: seq<Limb>, c: seq<Limb>)
    requires |a| == |b| == |c|
    ensures Lead(a, b, c, 0) == Val(c) - Val(a) - Val(b)
  {
    assert a[0..] == a && b[0..] == b && c[0..] == c;
  }
}
