/**
 * The weighted selector: GetRandomFortuneIndexFrom draws one index over the
 * sum of all entry counts, and the walk in GetFortuneTextFrom maps it to a
 * source and an entry of that source.
 */
module Selector {
  import opened Wrappers
  import opened Registry

  /** The sum of the counts of the given sources. */
  function SumCounts(sources: seq<Source>): nat
  {
    if sources == [] then 0 else SumCounts(sources[..|sources| - 1]) + sources[|sources| - 1].count
  }

  /** Random.Next(maxValue): below maxValue when it is positive, 0 when it is 0. */
  ghost predicate IsNext(next: nat -> nat)
  {
    && next(0) == 0
    && forall m: nat :: m > 0 ==> next(m) < m
  }

  /** Fortune.cs lines 135-138: the loop that adds up the counts. */
  method TotalWeight(sources: seq<Source>) returns (maxValue: nat)
    ensures maxValue == SumCounts(sources)
  {
    maxValue := 0;
    var i := 0;
    while i < |sources|
      invariant 0 <= i <= |sources|
      invariant maxValue == SumCounts(sources[..i])
    {
      assert sources[..i + 1][..i] == sources[..i];
      maxValue := maxValue + sources[i].count;
      i := i + 1;
    }
    assert sources[..i] == sources;
  }

  /** Fortune.cs lines 134-140: the drawn index lies below the total of all counts, or is 0 when there is none. */
  method GetRandomFortuneIndexFrom(sources: seq<Source>, next: nat -> nat) returns (index: nat)
    requires IsNext(next)
    ensures index == next(SumCounts(sources))
    ensures SumCounts(sources) > 0 ==> index < SumCounts(sources)
    ensures SumCounts(sources) == 0 ==> index == 0
  {
    var maxValue := TotalWeight(sources);
    index := next(maxValue);
  }

  /**
   * The walk of Fortune.cs lines 143-144 and 170: the position of the first source
   * whose count exceeds what is left of the index once the earlier counts
   * are taken off, with that remainder as the entry within the source. The
   * entry lies below the source's count, so a source with no entries is
   * never chosen.
   */
  function Locate(sources: seq<Source>, index: nat): (r: Option<(nat, nat)>)
    ensures r.Some? ==> r.value.0 < |sources| && r.value.1 < sources[r.value.0].count
  {
    if sources == [] then None
    else if index < sources[0].count then Some((0, index))
    else
      match Locate(sources[1..], index - sources[0].count)
      case None => None
      case Some((p, local)) => Some((p + 1, local))
  }

  lemma {:induction false} SumCountsFront(sources: seq<Source>)
    requires sources != []
    ensures SumCounts(sources) == sources[0].count + SumCounts(sources[1..])
  {
    if |sources| > 1 {
      var init := sources[..|sources| - 1];
      SumCountsFront(init);
      assert init[1..] == sources[1..][..|sources| - 2];
    }
  }

  lemma SumCountsPrefixStep(sources: seq<Source>, p: nat)
    requires p < |sources|
    ensures SumCounts(sources[..p + 1]) == SumCounts(sources[..p]) + sources[p].count
  {
    assert sources[..p + 1][..p] == sources[..p];
  }

  /** The running total over sources after their first one. */
  lemma PrefixAfterHead(sources: seq<Source>, k: nat)
    requires k < |sources|
    ensures SumCounts(sources[..k + 1]) == sources[0].count + SumCounts(sources[1..][..k])
  {
    assert sources[..k + 1][1..] == sources[1..][..k];
    SumCountsFront(sources[..k + 1]);
  }

  /** For an index that is not negative, the walk finds a source exactly when the index is below the total. */
  lemma {:induction false} LocateFindsIffBelowTotal(sources: seq<Source>, index: nat)
    ensures Locate(sources, index).Some? <==> index < SumCounts(sources)
    decreases |sources|
  {
    if sources != [] {
      SumCountsFront(sources);
      if index >= sources[0].count {
        LocateFindsIffBelowTotal(sources[1..], index - sources[0].count);
      }
    }
  }

  /**
   * The source the walk finds comes after every source it passed over, whose
   * counts it took off the index; what is left is the entry within the source,
   * which lies below that source's count.
   */
  lemma {:induction false} LocateFound(sources: seq<Source>, index: nat)
    requires Locate(sources, index).Some?
    ensures Locate(sources, index).value.0 < |sources|
    ensures var p, local := Locate(sources, index).value.0, Locate(sources, index).value.1;
            && local == index - SumCounts(sources[..p])
            && 0 <= local < sources[p].count
            && (forall q :: 0 <= q < p ==> index - SumCounts(sources[..q]) >= sources[q].count)
    decreases |sources|
  {
    var head := sources[0].count;
    if index < head {
      assert sources[..0] == [];
    } else {
      var rest := sources[1..];
      LocateFound(rest, index - head);
      var p := Locate(rest, index - head).value.0;
      PrefixAfterHead(sources, p);
      forall q | 0 <= q < p + 1 ensures index - SumCounts(sources[..q]) >= sources[q].count
      {
        if q == 0 {
          assert sources[..0] == [];
        } else {
          PrefixAfterHead(sources, q - 1);
          assert sources[q] == rest[q - 1];
        }
      }
    }
  }

  /**
   * For an index that is not negative, the walk finds a source exactly when
   * the index is below the total; the source it finds is the one whose span
   * of the running total holds the index, and its local entry is the index
   * less the counts before it.
   */
  lemma LocateSpec(sources: seq<Source>, index: nat)
    ensures Locate(sources, index).Some? <==> index < SumCounts(sources)
    ensures Locate(sources, index).Some? ==>
              var p, local := Locate(sources, index).value.0, Locate(sources, index).value.1;
              && p < |sources|
              && SumCounts(sources[..p]) <= index < SumCounts(sources[..p + 1])
              && local == index - SumCounts(sources[..p])
  {
    LocateFindsIffBelowTotal(sources, index);
    if Locate(sources, index).Some? {
      LocateFound(sources, index);
      SumCountsPrefixStep(sources, Locate(sources, index).value.0);
    }
  }

  /**
   * Global and local indices correspond one to one: the walk sends the
   * local-th entry of source p, counted after all entries of the sources
   * before it, back to source p and entry local.
   */
  lemma {:induction false} LocateGlobal(sources: seq<Source>, p: nat, local: nat)
    requires p < |sources| && local < sources[p].count
    ensures Locate(sources, SumCounts(sources[..p]) + local) == Some((p, local))
    decreases p
  {
    if p == 0 {
      assert sources[..0] == [];
    } else {
      var rest := sources[1..];
      LocateGlobal(rest, p - 1, local);
      assert sources[..p][1..] == rest[..p - 1];
      SumCountsFront(sources[..p]);
    }
  }
}
