/**
 * The corruption index: for each partition id, the corrupt files that came
 * from that partition's archive and whether they have been restored. Python's
 * dict keeps insertion order, so the value form records the key order beside
 * the map; the checkpoint file holds exactly this value.
 */
module Corruption {
  import opened PathNames

  /** One corrupt file: where it lives in the dataset and its bare name inside the archive. */
  datatype Entry = Entry(fullPath: string, filename: string)

  /** The `{'images': [...], 'fixed': bool}` record of one partition. */
  datatype PartState = PartState(images: seq<Entry>, fixed: bool)

  /** The index as a value: keys in insertion order, and the records. */
  datatype Snapshot = Snapshot(order: seq<nat>, parts: map<nat, PartState>)

  const Empty: Snapshot := Snapshot([], map[])

  predicate Distinct(ks: seq<nat>) {
    forall i, j :: 0 <= i < j < |ks| ==> ks[i] != ks[j]
  }

  /** The key order lists every key of the map exactly once. */
  predicate WellFormed(s: Snapshot) {
    Distinct(s.order) && (forall p :: p in s.parts ==> p in s.order) && (forall i :: 0 <= i < |s.order| ==> s.order[i] in s.parts)
  }

  /** Every entry is recorded under its path's base name. */
  predicate NamedByPath(s: Snapshot) {
    forall p, e :: p in s.parts && e in s.parts[p].images ==> e.filename == Name(e.fullPath)
  }

  /** No full path is listed under two different partitions. */
  predicate PathsDisjoint(s: Snapshot) {
    forall p, q, e, e' ::
      (p in s.parts && q in s.parts && e in s.parts[p].images && e' in s.parts[q].images && e.fullPath == e'.fullPath)
      ==> p == q
  }

  predicate Coherent(s: Snapshot) {
    NamedByPath(s) && PathsDisjoint(s)
  }

  /** Appends `e` to partition `p`, creating `p` unfixed and last in order if absent. */
  function Append(s: Snapshot, p: nat, e: Entry): (r: Snapshot)
    requires WellFormed(s)
    ensures WellFormed(r)
    ensures r.parts.Keys == s.parts.Keys + {p}
    ensures r.order == if p in s.parts then s.order else s.order + [p]
    ensures r.parts[p] == if p in s.parts then s.parts[p].(images := s.parts[p].images + [e]) else PartState([e], false)
    ensures forall q :: q in s.parts && q != p ==> r.parts[q] == s.parts[q]
  {
    if p in s.parts then
      Snapshot(s.order, s.parts[p := s.parts[p].(images := s.parts[p].images + [e])])
    else
      Snapshot(s.order + [p], s.parts[p := PartState([e], false)])
  }

  /** Sets `fixed` on partition `p` and changes nothing else. */
  function SetFixed(s: Snapshot, p: nat): (r: Snapshot)
    requires p in s.parts
  {
    Snapshot(s.order, s.parts[p := s.parts[p].(fixed := true)])
  }

  /** The in-memory dict that the repair phase updates in place. */
  class CorruptionIndex {
    var order: seq<nat>
    var parts: map<nat, PartState>

    function Value(): Snapshot
      reads this
    {
      Snapshot(order, parts)
    }

    predicate Valid()
      reads this
    {
      WellFormed(Value())
    }

    constructor (s: Snapshot)
      requires WellFormed(s)
      ensures Valid() && Value() == s
    {
      order, parts := s.order, s.parts;
    }

    /** `corrupt_images_dict[part_id_str]['fixed'] = True`. */
    method MarkFixed(p: nat)
      requires Valid() && p in parts
      modifies this
      ensures Valid() && Value() == SetFixed(old(Value()), p)
    {
      parts := parts[p := parts[p].(fixed := true)];
    }
  }
}
