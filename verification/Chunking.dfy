/**
 The chunk writer is greedy: it fills each chunk as far as whole records go. No other way of
 cutting a trace at record boundaries gets further, or gets as far in fewer chunks, although the
 room in a chunk depends on the number of digits in its index.
 */
module Chunking {
  import opened Text
  import opened TraceFormat

  /** A way of cutting a prefix of `bytes` into numbered chunks that respects `-b`. */
  ghost predicate ValidSplit(cfg: Config, id: nat, bytes: Bytes, split: seq<Bytes>) {
    && Flatten(split) <= bytes
    && forall k :: 0 <= k < |split| ==> GoodBody(cfg, id, k, split[k])
  }

  /** Where the chunk writer stands after `k` turns of its loop. */
  ghost function Reach(cfg: Config, id: nat, bytes: Bytes, k: nat): (p: nat)
    ensures p <= |bytes|
  {
    if k == 0 then 0
    else
      var p := Reach(cfg, id, bytes, k - 1);
      p + ChunkEnd(cfg, bytes[p..], Room(cfg, id, k - 1))
  }

  /** No record end lies beyond the chosen chunk end and still within the room. */
  lemma ChunkEndIsFurthest(cfg: Config, rest: Bytes, room: nat, x: nat)
    requires 0 < x <= |rest| && rest[x - 1] == cfg.frame && x <= room
    ensures x <= ChunkEnd(cfg, rest, room)
  {
    if room < |rest| {
      assert rest[..room][x - 1] == cfg.frame;
    }
  }

  lemma {:induction false} FlattenTake(a: seq<Bytes>, m: nat)
    requires m < |a|
    ensures Flatten(a[..m + 1]) == Flatten(a[..m]) + a[m]
  {
    assert a[..m + 1] == a[..m] + [a[m]];
    FlattenSnoc(a[..m], a[m]);
  }

  lemma {:induction false} FlattenPrefix(a: seq<Bytes>, m: nat)
    requires m <= |a|
    ensures Flatten(a[..m]) <= Flatten(a)
  {
    assert a == a[..m] + a[m..];
    FlattenConcat(a[..m], a[m..]);
  }

  /** Chunk `m` of a valid split ends at a record end, within its room. */
  lemma SplitAdvances(cfg: Config, id: nat, bytes: Bytes, split: seq<Bytes>, m: nat) returns (q: nat)
    requires ValidSplit(cfg, id, bytes, split) && m < |split|
    ensures q == |Flatten(split[..m + 1])| <= |Flatten(split[..m])| + Room(cfg, id, m)
    ensures 0 < q <= |bytes| && bytes[q - 1] == cfg.frame
  {
    hide Flatten;
    FlattenTake(split, m);
    FlattenPrefix(split, m + 1);
    q := |Flatten(split[..m + 1])|;
    assert GoodBody(cfg, id, m, split[m]);
    assert bytes[q - 1] == Flatten(split[..m + 1])[q - 1] == split[m][|split[m]| - 1];
  }

  /** After any number of chunks the chunk writer is at least as far as any valid split. */
  lemma {:induction false} GreedyStaysAhead(cfg: Config, id: nat, bytes: Bytes, split: seq<Bytes>, m: nat)
    requires ValidSplit(cfg, id, bytes, split) && m <= |split|
    ensures |Flatten(split[..m])| <= Reach(cfg, id, bytes, m)
  {
    hide ChunkEnd, Room, Flatten;
    if m > 0 {
      GreedyStaysAhead(cfg, id, bytes, split, m - 1);
      var q := SplitAdvances(cfg, id, bytes, split, m - 1);
      var p, room := Reach(cfg, id, bytes, m - 1), Room(cfg, id, m - 1);
      if q > p {
        assert bytes[p..][q - p - 1] == bytes[q - 1];
        ChunkEndIsFurthest(cfg, bytes[p..], room, q - p);
      }
    } else {
      assert split[..0] == [];
      assert Flatten<char>([]) == [] by { FlattenNothing(); }
    }
  }

  lemma DropOneMore<T>(s: seq<T>, k: nat)
    requires k < |s|
    ensures s[k + 1..] == s[k..][1..]
  {
  }

  lemma BodiesTail(cfg: Config, id: nat, k: nat, rest: Bytes)
    requires Bodies(cfg, id, k, rest) != []
    ensures Bodies(cfg, id, k, rest)[1..] ==
            Bodies(cfg, id, k + 1, rest[ChunkEnd(cfg, rest, Room(cfg, id, k))..])
  {
    hide ChunkEnd, Room;
  }

  /** What remains to be written after `k` turns. */
  lemma {:induction false} BodiesAfter(cfg: Config, id: nat, bytes: Bytes, k: nat)
    requires k <= |Bodies(cfg, id, 0, bytes)|
    ensures Bodies(cfg, id, 0, bytes)[k..] == Bodies(cfg, id, k, bytes[Reach(cfg, id, bytes, k)..])
  {
    hide ChunkEnd, Room, Bodies;
    var bodies := Bodies(cfg, id, 0, bytes);
    if k == 0 {
      assert bytes[0..] == bytes && bodies[0..] == bodies;
    } else {
      BodiesAfter(cfg, id, bytes, k - 1);
      var p := Reach(cfg, id, bytes, k - 1);
      var n := ChunkEnd(cfg, bytes[p..], Room(cfg, id, k - 1));
      DropOneMore(bodies, k - 1);
      BodiesTail(cfg, id, k - 1, bytes[p..]);
      assert bytes[p..][n..] == bytes[p + n..];
    }
  }

  /** Turn `k` writes as many bytes as the position moves. */
  lemma BodyMovesReach(cfg: Config, id: nat, bytes: Bytes, k: nat)
    requires k < |Bodies(cfg, id, 0, bytes)|
    ensures Reach(cfg, id, bytes, k + 1) == Reach(cfg, id, bytes, k) + |Bodies(cfg, id, 0, bytes)[k]|
  {
    hide ChunkEnd, Room;
    BodiesAfter(cfg, id, bytes, k);
    assert Bodies(cfg, id, 0, bytes)[k..][0] == Bodies(cfg, id, 0, bytes)[k];
  }

  /** The positions after each turn are the lengths of what has been written. */
  lemma {:induction false} ReachIsWritten(cfg: Config, id: nat, bytes: Bytes, k: nat)
    requires k <= |Bodies(cfg, id, 0, bytes)|
    ensures Reach(cfg, id, bytes, k) == |Flatten(Bodies(cfg, id, 0, bytes)[..k])|
  {
    hide ChunkEnd, Room;
    if k > 0 {
      ReachIsWritten(cfg, id, bytes, k - 1);
      BodyMovesReach(cfg, id, bytes, k - 1);
      FlattenTake(Bodies(cfg, id, 0, bytes), k - 1);
    }
  }

  lemma StuckForGood(cfg: Config, id: nat, rest: Bytes, j: nat, k: nat)
    requires WholeRecords(cfg, rest) && j <= k && ChunkEnd(cfg, rest, Room(cfg, id, j)) == 0
    ensures ChunkEnd(cfg, rest, Room(cfg, id, k)) == 0
  {
    RoomShrinks(cfg, id, j, k);
    if rest != [] {
      ChunkEndStuck(cfg, rest, Room(cfg, id, j));
      ChunkEndStuck(cfg, rest, Room(cfg, id, k));
    }
  }

  lemma StuckAtTheEnd(cfg: Config, id: nat, bytes: Bytes)
    requires WholeRecords(cfg, bytes)
    ensures var n := |Bodies(cfg, id, 0, bytes)|;
            && Reach(cfg, id, bytes, n) == |Flatten(Bodies(cfg, id, 0, bytes))|
            && ChunkEnd(cfg, bytes[Reach(cfg, id, bytes, n)..], Room(cfg, id, n)) == 0
  {
    hide ChunkEnd, Room;
    var bodies := Bodies(cfg, id, 0, bytes);
    assert bodies[..|bodies|] == bodies;
    ReachIsWritten(cfg, id, bytes, |bodies|);
    BodiesAfter(cfg, id, bytes, |bodies|);
  }

  /** Once stuck the chunk writer would stay stuck: later chunks have no more room. */
  lemma {:induction false} ReachStopsWithBodies(cfg: Config, id: nat, bytes: Bytes, j: nat)
    requires WholeRecords(cfg, bytes) && |Bodies(cfg, id, 0, bytes)| <= j
    ensures Reach(cfg, id, bytes, j) == |Flatten(Bodies(cfg, id, 0, bytes))|
  {
    hide ChunkEnd, Room;
    var n := |Bodies(cfg, id, 0, bytes)|;
    StuckAtTheEnd(cfg, id, bytes);
    if j > n {
      ReachStopsWithBodies(cfg, id, bytes, j - 1);
      StuckForGood(cfg, id, bytes[Reach(cfg, id, bytes, n)..], n, j - 1);
    }
  }

  lemma FewerBodiesFallShort(cfg: Config, id: nat, bytes: Bytes, m: nat)
    requires WholeRecords(cfg, bytes) && m < |Bodies(cfg, id, 0, bytes)|
    ensures Reach(cfg, id, bytes, m) < |Flatten(Bodies(cfg, id, 0, bytes))|
  {
    var bodies := Bodies(cfg, id, 0, bytes);
    ReachIsWritten(cfg, id, bytes, m);
    FlattenTake(bodies, m);
    FlattenPrefix(bodies, m + 1);
    BodiesAreGood(cfg, id, 0, bytes);
    assert GoodBody(cfg, id, 0 + m, bodies[m]);
  }

  /** The chunk writer's own cut is a valid split. */
  lemma GreedyIsValid(cfg: Config, id: nat, bytes: Bytes)
    requires WholeRecords(cfg, bytes)
    ensures ValidSplit(cfg, id, bytes, Bodies(cfg, id, 0, bytes))
  {
    BodiesCoverPrefix(cfg, id, 0, bytes);
    BodiesAreGood(cfg, id, 0, bytes);
    forall k | 0 <= k < |Bodies(cfg, id, 0, bytes)|
      ensures GoodBody(cfg, id, k, Bodies(cfg, id, 0, bytes)[k])
    {
      assert GoodBody(cfg, id, 0 + k, Bodies(cfg, id, 0, bytes)[k]);
    }
  }

  /** No valid split covers more of the trace, and none that covers as much uses fewer chunks. */
  lemma GreedyIsOptimal(cfg: Config, id: nat, bytes: Bytes, split: seq<Bytes>)
    requires WholeRecords(cfg, bytes) && ValidSplit(cfg, id, bytes, split)
    ensures Flatten(split) <= Flatten(Bodies(cfg, id, 0, bytes))
    ensures Flatten(split) == Flatten(Bodies(cfg, id, 0, bytes)) ==> |Bodies(cfg, id, 0, bytes)| <= |split|
    ensures Flatten(split) == bytes ==> LeftOver(cfg, id, 0, bytes) == []
  {
    var m, bodies := |split|, Bodies(cfg, id, 0, bytes);
    assert split[..m] == split;
    GreedyStaysAhead(cfg, id, bytes, split, m);
    if m < |bodies| {
      FewerBodiesFallShort(cfg, id, bytes, m);
    } else {
      ReachStopsWithBodies(cfg, id, bytes, m);
    }
    BodiesCoverPrefix(cfg, id, 0, bytes);
  }
}
