/** The chain traversal of append (modules/fs/fat32.c) and its cycle guard: it reaches the last cluster of
    any chain that ends and gives up exactly on those that do not. */
module FatChain {
  import opened Machine
  import opened FatNames
  import opened FatDisk

  /** The cluster k links after c, if there are that many links. */
  function Hop(fat: Sector, c: nat, k: nat): Option<nat>
  {
    if k == 0 then Some(c)
    else
      var before := Hop(fat, c, k - 1);
      if before.Some? && before.value < 128 && IsLink(FatAt(fat, before.value)) then Some(FatAt(fat, before.value))
      else None
  }

  /** The chain from c stops after k links. */
  predicate EndsAfter(fat: Sector, c: nat, k: nat) {
    Hop(fat, c, k).Some? && Hop(fat, c, k).value < 128 && !IsLink(FatAt(fat, Hop(fat, c, k).value))
  }

  /** The chain from c comes back to a cluster it has already visited. */
  predicate Revisits(fat: Sector, c: nat, i: nat, j: nat) {
    i < j && Hop(fat, c, i).Some? && Hop(fat, c, j) == Hop(fat, c, i)
  }

  ghost predicate Ends(fat: Sector, c: nat) { exists k: nat :: EndsAfter(fat, c, k) }

  ghost predicate IsCircular(fat: Sector, c: nat) { exists i: nat, j: nat :: Revisits(fat, c, i, j) }

  /** Links stay among the usable clusters 2 .. limit - 1. */
  predicate LinksInRange(fat: Sector, limit: nat) {
    2 < limit <= 128 && forall x :: 2 <= x < limit && IsLink(FatAt(fat, x)) ==> FatAt(fat, x) < limit
  }

  lemma {:induction false} HopInRange(fat: Sector, c: nat, limit: nat, k: nat)
    requires LinksInRange(fat, limit) && 2 <= c < limit && Hop(fat, c, k).Some?
    ensures 2 <= Hop(fat, c, k).value < limit
  {
    if k > 0 { HopInRange(fat, c, limit, k - 1); }
  }

  lemma {:induction false} HopBefore(fat: Sector, c: nat, i: nat, k: nat)
    requires i <= k && Hop(fat, c, k).Some?
    ensures Hop(fat, c, i).Some?
  {
    if i < k { HopBefore(fat, c, i, k - 1); }
  }

  /** A chain that revisits never stops. */
  lemma {:induction false} RevisitingNeverEnds(fat: Sector, c: nat, i: nat, j: nat, n: nat)
    requires Revisits(fat, c, i, j)
    ensures Hop(fat, c, n).Some?
    ensures n >= j ==> Hop(fat, c, n) == Hop(fat, c, n - (j - i))
    decreases n
  {
    if n <= j {
      HopBefore(fat, c, n, j);
    } else {
      RevisitingNeverEnds(fat, c, i, j, n - 1);
      RevisitingNeverEnds(fat, c, i, j, n - (j - i));
    }
  }

  /** Among more values than pigeonholes two coincide. */
  lemma {:induction false} Pigeonhole(s: seq<nat>, holes: nat) returns (i: nat, j: nat)
    requires |s| > holes && forall k :: 0 <= k < |s| ==> s[k] < holes
    ensures i < j < |s| && s[i] == s[j]
    decreases holes
  {
    var last := |s| - 1;
    if k :| 0 <= k < last && s[k] == s[last] {
      return k, last;
    }
    // move the last value's hole to the end and drop it
    var t := seq(last, k requires 0 <= k < last => if s[k] == holes - 1 then s[last] else s[k]);
    i, j := Pigeonhole(t, holes - 1);
  }

  lemma LongChainRevisits(fat: Sector, c: nat, limit: nat) returns (i: nat, j: nat)
    requires LinksInRange(fat, limit) && 2 <= c < limit && Hop(fat, c, limit - 2).Some?
    ensures Revisits(fat, c, i, j)
  {
    forall k | 0 <= k <= limit - 2 ensures Hop(fat, c, k).Some? && 2 <= Hop(fat, c, k).value < limit {
      HopBefore(fat, c, k, limit - 2);
      HopInRange(fat, c, limit, k);
    }
    var s := seq(limit - 1, k requires 0 <= k < limit - 1 => Hop(fat, c, k).value as nat - 2);
    i, j := Pigeonhole(s, limit - 2);
  }

  /** The walk, g links from the start: it stops where the chain stops, or trips the guard. */
  lemma {:induction false} WalkFollows(fat: Sector, c: nat, limit: nat, g: nat, maxClusters: u32)
    requires LinksInRange(fat, limit) && 2 <= c < limit && g <= maxClusters && Hop(fat, c, g).Some?
    requires forall k :: 0 <= k < g ==> !EndsAfter(fat, c, k)
    ensures match WalkFrom(fat, Hop(fat, c, g).value, g, maxClusters)
            case OutsideTable(_) => false
            case Last(l) => exists k: nat :: g <= k <= maxClusters && EndsAfter(fat, c, k) && Hop(fat, c, k) == Some(l)
            case Circular => Hop(fat, c, maxClusters + 1).Some?
    decreases maxClusters - g
  {
    HopInRange(fat, c, limit, g);
    var x := Hop(fat, c, g).value;
    if !IsLink(FatAt(fat, x)) {
      assert EndsAfter(fat, c, g);
    } else {
      assert Hop(fat, c, g + 1) == Some(FatAt(fat, x));
      if g + 1 <= maxClusters { WalkFollows(fat, c, limit, g + 1, maxClusters); }
    }
  }

  lemma NoEndAfterRevisit(fat: Sector, c: nat, i: nat, j: nat, k: nat)
    requires Revisits(fat, c, i, j)
    ensures !EndsAfter(fat, c, k)
  {
    RevisitingNeverEnds(fat, c, i, j, k + 1);
  }

  lemma EndsOrRevisits(fat: Sector, c: nat)
    ensures !(Ends(fat, c) && IsCircular(fat, c))
  {
    forall i: nat, j: nat, k: nat | Revisits(fat, c, i, j) ensures !EndsAfter(fat, c, k) {
      NoEndAfterRevisit(fat, c, i, j, k);
    }
  }

  lemma TrippedMeansCircular(fat: Sector, c: nat, limit: nat, maxClusters: u32)
    requires LinksInRange(fat, limit) && 2 <= c < limit && maxClusters >= limit - 2
    requires Hop(fat, c, maxClusters + 1).Some?
    ensures IsCircular(fat, c)
  {
    HopBefore(fat, c, limit - 2, maxClusters + 1);
    var i, j := LongChainRevisits(fat, c, limit);
  }

  /** The cycle guard, given at least as many tolerated links as usable clusters: the walk aborts
      exactly when the chain is circular, and otherwise reaches the chain's last cluster. */
  lemma GuardIsExact(fat: Sector, c: nat, limit: nat, maxClusters: u32)
    requires LinksInRange(fat, limit) && 2 <= c < limit && maxClusters >= limit - 2
    ensures var walk := WalkFrom(fat, c, 0, maxClusters);
            && (walk == Circular <==> IsCircular(fat, c))
            && (walk.Last? <==> Ends(fat, c))
            && (walk.Last? ==> exists k: nat :: EndsAfter(fat, c, k) && Hop(fat, c, k) == Some(walk.cluster))
    ensures Ends(fat, c) <==> !IsCircular(fat, c)
  {
    assert Hop(fat, c, 0) == Some(c);
    WalkFollows(fat, c, limit, 0, maxClusters);
    EndsOrRevisits(fat, c);
    match WalkFrom(fat, c, 0, maxClusters)
    case Circular => TrippedMeansCircular(fat, c, limit, maxClusters);
    case Last(l) =>
      var k: nat :| 0 <= k <= maxClusters && EndsAfter(fat, c, k) && Hop(fat, c, k) == Some(l);
    case OutsideTable(_) =>
  }

  /** Append gives up, with the disk untouched, exactly on a circular chain. */
  lemma AppendAbortsOnCycles(v: Volume, disk: Disk, filename: Bytes, data: Bytes, limit: nat)
    requires |data| < TWO_32 && RootSector(v) in disk && v.fatStart in disk
    requires Search(disk[RootSector(v)], FatName(filename)).Some?
    requires LinksInRange(disk[v.fatStart], limit) && v.maxClusters >= limit - 2
    requires var i := Search(disk[RootSector(v)], FatName(filename)).value;
             2 <= EntryAt(disk[RootSector(v)], i).cluster < limit
    ensures var i := Search(disk[RootSector(v)], FatName(filename)).value;
            var r := AppendFile(v, disk, filename, data);
            && (r.0.Aborted? <==> IsCircular(disk[v.fatStart], EntryAt(disk[RootSector(v)], i).cluster))
            && (r.0.Aborted? ==> r.1 == disk)
  {
    var i := Search(disk[RootSector(v)], FatName(filename)).value;
    GuardIsExact(disk[v.fatStart], EntryAt(disk[RootSector(v)], i).cluster, limit, v.maxClusters);
  }
}
