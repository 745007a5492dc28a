/** The research source store: one JSON array of sources (`content/sources/index.json`),
    read whole, changed in memory and written back whole. The file is the field `sources` of
    `SourceStore`; the clock and the outcome of the file write are parameters. */
module Sources {
  import opened Types
  import opened Seqs

  /** Outcome of an operation that ends by writing the index file: the write may throw. */
  datatype Written<T> = Done(value: T) | WriteFailed(message: string)

  /** The message of a failed write of the index file (the operating system's text). */
  const WriteError := "cannot write the source index"

  /** `sources.findIndex(s => s.id === id)`: the first position holding `id`, or -1. */
  function IndexOf(sources: seq<Source>, id: string): (i: int)
    ensures -1 <= i < |sources|
    ensures i >= 0 ==> sources[i].id == id
    ensures forall k :: 0 <= k < |sources| && (i < 0 || k < i) ==> sources[k].id != id
  {
    if sources == [] then -1
    else if sources[0].id == id then 0
    else
      var j := IndexOf(sources[1..], id);
      if j < 0 then -1 else j + 1
  }

  /** `sources.find(s => s.id === id) || null`. */
  function FindById(sources: seq<Source>, id: string): (r: Option<Source>)
    ensures r.None? <==> forall k :: 0 <= k < |sources| ==> sources[k].id != id
    ensures r.Some? ==> exists k :: 0 <= k < |sources| && sources[k] == r.value
                          && r.value.id == id
                          && forall j :: 0 <= j < k ==> sources[j].id != id
  {
    var i := IndexOf(sources, id);
    if i < 0 then None else Some(sources[i])
  }

  /** The index after `saveSource(source)` at time `now`: a source whose id is present
      replaces the first record with that id (the caller's `createdAt` is kept, `updatedAt`
      becomes `now`); otherwise it is appended with both timestamps set to `now`. */
  function Upsert(sources: seq<Source>, source: Source, now: string): (r: seq<Source>)
    ensures |r| == |sources| <==> exists k :: 0 <= k < |sources| && sources[k].id == source.id
    ensures |r| == |sources| || |r| == |sources| + 1
    ensures forall k :: 0 <= k < |sources| && sources[k].id != source.id ==> r[k] == sources[k]
  {
    var i := IndexOf(sources, source.id);
    if i >= 0 then sources[i := source.(updatedAt := now)]
    else sources + [source.(createdAt := now, updatedAt := now)]
  }

  /** `sources.filter(s => s.id !== id)`. */
  function RemoveId(sources: seq<Source>, id: string): (r: seq<Source>)
    ensures Subsequence(r, sources)
    ensures forall k :: 0 <= k < |r| ==> r[k].id != id
    ensures forall s :: multiset(r)[s] == if s.id != id then multiset(sources)[s] else 0
  {
    FilterMultiset(sources, (s: Source) => s.id != id);
    Filter(sources, (s: Source) => s.id != id)
  }

  /** No two records share an id. */
  ghost predicate DistinctIds(sources: seq<Source>) {
    forall i, j :: 0 <= i < j < |sources| ==> sources[i].id != sources[j].id
  }

  /** Saving an id that is present replaces that record in place: same length, every other
      record unchanged, and the new record is the caller's with `updatedAt` set to `now`. */
  lemma UpsertExisting(sources: seq<Source>, source: Source, now: string)
    requires exists k :: 0 <= k < |sources| && sources[k].id == source.id
    ensures var i := IndexOf(sources, source.id);
      && 0 <= i < |sources|
      && |Upsert(sources, source, now)| == |sources|
      && Upsert(sources, source, now)[i] == source.(updatedAt := now)
      && Upsert(sources, source, now)[i].createdAt == source.createdAt
      && forall k :: 0 <= k < |sources| && k != i ==> Upsert(sources, source, now)[k] == sources[k]
  {
  }

  /** Saving an unseen id appends exactly one record, stamped with `now` twice. */
  lemma UpsertNew(sources: seq<Source>, source: Source, now: string)
    requires forall k :: 0 <= k < |sources| ==> sources[k].id != source.id
    ensures var r := Upsert(sources, source, now);
      && |r| == |sources| + 1
      && r[..|sources|] == sources
      && r[|sources|] == source.(createdAt := now, updatedAt := now)
  {
    assert IndexOf(sources, source.id) == -1;
  }

  /** Saving keeps ids pairwise distinct. */
  lemma UpsertKeepsIdsDistinct(sources: seq<Source>, source: Source, now: string)
    requires DistinctIds(sources)
    ensures DistinctIds(Upsert(sources, source, now))
  {
    var r := Upsert(sources, source, now);
    var i := IndexOf(sources, source.id);
    if i < 0 {
      forall a, b | 0 <= a < b < |r| ensures r[a].id != r[b].id {
        if b == |sources| {
          assert r[a] == sources[a];
        }
      }
    }
  }

  /** The first position holding `id` is the one `IndexOf` finds. */
  lemma IndexOfFirst(sources: seq<Source>, id: string, i: nat)
    requires i < |sources| && sources[i].id == id
    requires forall k :: 0 <= k < i ==> sources[k].id != id
    ensures IndexOf(sources, id) == i
  {
  }

  /** After a save, looking the id up yields the record just written: the caller's source
      up to its two timestamps. */
  lemma SaveThenFind(sources: seq<Source>, source: Source, now: string)
    ensures var r := FindById(Upsert(sources, source, now), source.id);
      && r.Some?
      && r.value.(createdAt := source.createdAt, updatedAt := source.updatedAt) == source
      && r.value.updatedAt == now
  {
    var i := IndexOf(sources, source.id);
    var u := Upsert(sources, source, now);
    if i >= 0 {
      IndexOfFirst(u, source.id, i);
    } else {
      IndexOfFirst(u, source.id, |sources|);
    }
  }

  /** Deleting removes something exactly when the id is present. */
  lemma RemoveIdShrinksIffPresent(sources: seq<Source>, id: string)
    ensures |RemoveId(sources, id)| < |sources| <==> exists k :: 0 <= k < |sources| && sources[k].id == id
  {
    FilterShrinksIff(sources, (s: Source) => s.id != id);
  }

  lemma {:induction false} RemoveAbsentIsIdentity(sources: seq<Source>, id: string)
    requires forall k :: 0 <= k < |sources| ==> sources[k].id != id
    ensures RemoveId(sources, id) == sources
  {
    if sources != [] {
      RemoveAbsentIsIdentity(sources[1..], id);
      assert sources == [sources[0]] + sources[1..];
    }
  }

  class SourceStore {
    /** The parsed contents of the index file. */
    var sources: seq<Source>

    constructor (initial: seq<Source>)
      ensures sources == initial
    {
      sources := initial;
    }

    /** `getAllSources()`. */
    method GetAllSources() returns (r: seq<Source>)
      ensures r == sources
    {
      r := sources;
    }

    /** `getSourceById(id)`. */
    method GetSourceById(id: string) returns (r: Option<Source>)
      ensures r == FindById(sources, id)
    {
      r := FindById(sources, id);
    }

    /** `saveSource(source)`: loads the array, replaces or appends in place, writes it back
        and returns the caller's argument (not the time-stamped copy that was stored). */
    method SaveSource(source: Source, now: string, writeOk: bool) returns (r: Written<Source>)
      modifies this
      ensures writeOk ==> r == Done(source) && sources == Upsert(old(sources), source, now)
      ensures !writeOk ==> r == WriteFailed(WriteError) && sources == old(sources)
    {
      var list := sources;
      var existingIndex := IndexOf(list, source.id);
      if existingIndex >= 0 {
        list := list[existingIndex := source.(updatedAt := now)];
      } else {
        list := list + [source.(createdAt := now, updatedAt := now)];
      }
      if writeOk {
        sources := list;
        r := Done(source);
      } else {
        r := WriteFailed(WriteError);
      }
    }

    /** `deleteSource(id)`: writes the array without the records holding `id`, unless nothing
        was removed, in which case it reports false and writes nothing. */
    method DeleteSource(id: string, writeOk: bool) returns (r: Written<bool>)
      modifies this
      ensures var filtered := RemoveId(old(sources), id);
        && (|filtered| == |old(sources)| ==> r == Done(false) && sources == old(sources))
        && (|filtered| != |old(sources)| && writeOk ==> r == Done(true) && sources == filtered)
        && (|filtered| != |old(sources)| && !writeOk ==> r == WriteFailed(WriteError) && sources == old(sources))
    {
      var filtered := RemoveId(sources, id);
      if |filtered| == |sources| {
        r := Done(false);
      } else if writeOk {
        sources := filtered;
        r := Done(true);
      } else {
        r := WriteFailed(WriteError);
      }
    }
  }
}
