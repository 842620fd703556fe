/**
 * The temporary chunk storage of the upload server: one file
 * `uploads/<session>/chunk_<index>` per delivered chunk, modelled as a map,
 * and what reassembly reads out of it.
 */
module ChunkStore {
  import opened Wrappers
  import opened Decimal

  newtype byte = b: int | 0 <= b < 256
  type Bytes = seq<byte>

  /**
   * The file a chunk is written to. `index` is the chunkIndex text exactly as
   * the client sent it: "01" and "1" name different files.
   */
  datatype ChunkKey = ChunkKey(session: string, index: string)

  type Chunks = map<ChunkKey, Bytes>

  /** The file reassembly reads for chunk `i`: `chunk_${i}`, a canonical numeral. */
  function SlotKey(session: string, i: nat): ChunkKey {
    ChunkKey(session, ToDecimal(i))
  }

  /** `fs.remove(uploads/<session>)`: every chunk of the session goes, every other stays. */
  function RemoveSession(store: Chunks, session: string): Chunks {
    map k | k in store && k.session != session :: store[k]
  }

  /** Chunks 0 .. n-1 of the session are all on disk. */
  predicate AllPresent(store: Chunks, session: string, n: nat) {
    forall i :: 0 <= i < n ==> SlotKey(session, i) in store
  }

  /** The contents of chunks 0 .. n-1, in index order. */
  function Parts(store: Chunks, session: string, n: nat): seq<Bytes>
    requires AllPresent(store, session, n)
  {
    seq(n, i requires 0 <= i < n => store[SlotKey(session, i)])
  }

  /** The concatenation of a list of byte strings, first to last. */
  function Flatten(parts: seq<Bytes>): Bytes {
    if parts == [] then [] else parts[0] + Flatten(parts[1..])
  }

  lemma {:induction false} FlattenAppend(parts: seq<Bytes>, last: Bytes)
    ensures Flatten(parts + [last]) == Flatten(parts) + last
  {
    if parts != [] {
      assert (parts + [last])[1..] == parts[1..] + [last];
      FlattenAppend(parts[1..], last);
    } else {
      assert [last][1..] == [];
    }
  }

  /**
   * The reassembly loop of `reassembleChunks`: append chunks 0 .. n-1 in
   * ascending order, and stop at the first one that is missing. It succeeds
   * exactly when every chunk is present, with their concatenation in index
   * order; otherwise it names the lowest missing index.
   */
  function Assemble(store: Chunks, session: string, n: nat): (r: Result<Bytes, nat>)
    ensures r.Ok? <==> AllPresent(store, session, n)
    ensures r.Ok? ==> r.value == Flatten(Parts(store, session, n))
    ensures r.Err? ==> r.error < n && SlotKey(session, r.error) !in store
    ensures r.Err? ==> AllPresent(store, session, r.error)
  {
    if n == 0 then Ok([])
    else
      match Assemble(store, session, n - 1)
      case Err(i) => Err(i)
      case Ok(prefix) =>
        var key := SlotKey(session, n - 1);
        if key in store then
          assert Parts(store, session, n) == Parts(store, session, n - 1) + [store[key]];
          FlattenAppend(Parts(store, session, n - 1), store[key]);
          Ok(prefix + store[key])
        else Err(n - 1)
  }

  /** Once chunk `i` is found missing, reassembly of any longer prefix fails there. */
  lemma {:induction false} AssembleStopsAtFirstGap(store: Chunks, session: string, i: nat, n: nat)
    requires i < n && Assemble(store, session, i).Ok? && SlotKey(session, i) !in store
    ensures Assemble(store, session, n) == Err(i)
  {
    if n > i + 1 {
      AssembleStopsAtFirstGap(store, session, i, n - 1);
    }
  }

  /**
   * Reassembly reads nothing but chunks 0 .. n-1 of its own session: two
   * stores that agree on those agree on the outcome.
   */
  lemma {:induction false} AssembleReadsOnlyItsSlots(s1: Chunks, s2: Chunks, session: string, n: nat)
    requires forall i :: 0 <= i < n ==>
      (SlotKey(session, i) in s1 <==> SlotKey(session, i) in s2)
    requires forall i :: 0 <= i < n && SlotKey(session, i) in s1 ==>
      s1[SlotKey(session, i)] == s2[SlotKey(session, i)]
    ensures Assemble(s1, session, n) == Assemble(s2, session, n)
  {
    if n > 0 {
      AssembleReadsOnlyItsSlots(s1, s2, session, n - 1);
    }
  }

  /** Writing to another session's directory never changes what this one reassembles. */
  lemma AssembleIgnoresOtherSessions(store: Chunks, session: string, n: nat, key: ChunkKey, data: Bytes)
    requires key.session != session
    ensures Assemble(store[key := data], session, n) == Assemble(store, session, n)
  {
    AssembleReadsOnlyItsSlots(store[key := data], store, session, n);
  }

  /**
   * Removing one session's directory leaves every other session's reassembly
   * as it was, and leaves nothing to reassemble for the removed session: a
   * later reassembly of it fails at chunk 0.
   */
  lemma RemoveSessionIsolates(store: Chunks, removed: string, other: string, n: nat)
    ensures removed != other ==> Assemble(RemoveSession(store, removed), other, n) == Assemble(store, other, n)
    ensures n >= 1 ==> Assemble(RemoveSession(store, removed), removed, n) == Err(0)
  {
    if removed != other {
      AssembleReadsOnlyItsSlots(RemoveSession(store, removed), store, other, n);
    }
    if n >= 1 {
      assert SlotKey(removed, 0) !in RemoveSession(store, removed);
      AssembleStopsAtFirstGap(RemoveSession(store, removed), removed, 0, n);
    }
  }

  /** A chunk written under a non-canonical index such as "01" is never read by reassembly. */
  lemma AssembleIgnoresNonCanonicalIndex(store: Chunks, session: string, n: nat, index: string, data: Bytes)
    requires !IsCanonical(index)
    ensures Assemble(store[ChunkKey(session, index) := data], session, n) == Assemble(store, session, n)
  {
    forall i: nat
      ensures SlotKey(session, i) != ChunkKey(session, index)
    {
      ParseToDecimal(i);
    }
    AssembleReadsOnlyItsSlots(store[ChunkKey(session, index) := data], store, session, n);
  }

  /**
   * A chunk sent as "00" parses as index 0, yet its bytes lie in `chunk_00`,
   * which reassembly never reads.
   */
  lemma DoubleZeroIndexIgnored(store: Chunks, session: string, n: nat, data: Bytes)
    ensures ParseInt("00") == Some(0)
    ensures Assemble(store[ChunkKey(session, "00") := data], session, n) == Assemble(store, session, n)
  {
    assert "00"[..1] == "0" && "0"[..0] == "";
    assert Value("00") == 0;
    assert !IsCanonical("00");
    AssembleIgnoresNonCanonicalIndex(store, session, n, "00", data);
  }

  /** One delivered chunk: its index and its bytes. */
  datatype Delivery = Delivery(index: nat, data: Bytes)

  /** The store after the deliveries are written in the given order, each overwriting its slot. */
  function Deliver(store: Chunks, session: string, ds: seq<Delivery>): Chunks {
    if ds == [] then store
    else
      var last := ds[|ds| - 1];
      Deliver(store, session, ds[..|ds| - 1])[SlotKey(session, last.index) := last.data]
  }

  /** Every delivery of chunk `i` carries `parts[i]`. */
  predicate ConsistentWith(ds: seq<Delivery>, parts: seq<Bytes>) {
    forall j :: 0 <= j < |ds| && ds[j].index < |parts| ==> ds[j].data == parts[ds[j].index]
  }

  /** Chunk `i` was delivered at least once. */
  predicate Delivered(ds: seq<Delivery>, i: nat) {
    exists j :: 0 <= j < |ds| && ds[j].index == i
  }

  /** After any order of deliveries, a chunk that was delivered holds its one content. */
  lemma {:induction false} DeliveredSlot(store: Chunks, session: string, ds: seq<Delivery>, parts: seq<Bytes>, i: nat)
    requires ConsistentWith(ds, parts) && i < |parts| && Delivered(ds, i)
    ensures SlotKey(session, i) in Deliver(store, session, ds)
    ensures Deliver(store, session, ds)[SlotKey(session, i)] == parts[i]
  {
    var last := ds[|ds| - 1];
    var init := ds[..|ds| - 1];
    if last.index != i {
      var j :| 0 <= j < |ds| && ds[j].index == i;
      assert init[j] == ds[j];
      assert ConsistentWith(init, parts) by {
        forall j' | 0 <= j' < |init| && init[j'].index < |parts|
          ensures init[j'].data == parts[init[j'].index]
        {
          assert init[j'] == ds[j'];
        }
      }
      DeliveredSlot(store, session, init, parts, i);
      ParseToDecimal(last.index);
      ParseToDecimal(i);
      assert SlotKey(session, last.index) != SlotKey(session, i);
    }
  }

  /**
   * Whatever order the chunks arrive in, and however often each is repeated,
   * once every index 0 .. n-1 has been delivered reassembly yields
   * chunk 0 ++ chunk 1 ++ ... ++ chunk n-1.
   */
  lemma AssembleInAnyOrder(store: Chunks, session: string, ds: seq<Delivery>, parts: seq<Bytes>)
    requires ConsistentWith(ds, parts)
    requires forall i :: 0 <= i < |parts| ==> Delivered(ds, i)
    ensures Assemble(Deliver(store, session, ds), session, |parts|) == Ok(Flatten(parts))
  {
    var after := Deliver(store, session, ds);
    forall i | 0 <= i < |parts|
      ensures SlotKey(session, i) in after && after[SlotKey(session, i)] == parts[i]
    {
      DeliveredSlot(store, session, ds, parts, i);
    }
    assert Parts(after, session, |parts|) == parts;
  }
}
