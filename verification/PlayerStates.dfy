/** ServerPlayerGameState: what one player is sent each tick, from the delta ring and that player's
    latest acknowledgement (src/nrg_serverstate.cpp:185-288). */
module PlayerStates {
  import opened Packets
  import opened Varints
  import opened Codecs
  import opened Deltas
  import opened Merges
  import opened Worlds
  import opened SnapshotWire
  import opened SnapshotRoundTrip
  import opened Windows
  import opened StaleAcks
  import opened DeltaSnapshots
  import opened Histories
  import opened MasterSnapshots
  import opened GamePackets
  import Queues
  import opened RingBuffers

  const MAX_SNAPS_WITHOUT_ACK: nat := 16

  const NEW_PLAYER := Tracker(0, false, 0, 0, 0, 0, 0)

  /** The position behind the newest image with this id; 0 if there is none. */
  function Behind(images: seq<Image>, id: nat): (k: nat)
    ensures k <= |images| && (k > 0 ==> images[k - 1].id == id)
    ensures forall j | k <= j < |images| :: images[j].id != id
  {
    if images == [] then 0
    else if images[|images| - 1].id == id then |images|
    else Behind(images[..|images| - 1], id)
  }

  lemma BehindUnique(images: seq<Image>, id: nat, k: nat)
    requires k <= |images| && (k > 0 ==> images[k - 1].id == id)
    requires forall j | k <= j < |images| :: images[j].id != id
    ensures k == Behind(images, id)
  {
  }

  /** The ids of the ring's deltas. */
  function Ids(images: seq<Image>): (ids: seq<nat>)
    ensures |ids| == |images| && forall i :: 0 <= i < |ids| ==> ids[i] == images[i].id
  {
    if images == [] then [] else Ids(images[..|images| - 1]) + [images[|images| - 1].id]
  }

  /** The position behind the newest of these ids that is the one looked for; 0 if there is none. */
  function BehindId(ids: seq<nat>, id: nat): (k: nat)
    ensures k <= |ids| && (k > 0 ==> ids[k - 1] == id)
    ensures forall j | k <= j < |ids| :: ids[j] != id
  {
    if ids == [] then 0 else if ids[|ids| - 1] == id then |ids| else BehindId(ids[..|ids| - 1], id)
  }

  /** The id of the merge of the deltas from k on: one of nothing has id 0. */
  function NewestId(images: seq<Image>, k: nat): nat
    requires k <= |images|
  {
    if k < |images| then images[|images| - 1].id else 0
  }

  lemma BehindIds(images: seq<Image>, id: nat)
    ensures Behind(images, id) == BehindId(Ids(images), id)
  {
    var k := BehindId(Ids(images), id);
    forall j | k <= j < |images|
      ensures images[j].id != id
    {
      assert Ids(images)[j] != id;
    }
    BehindUnique(images, id, k);
  }

  // ---------------------------------------------------------------- what is kept about a player

  /** mergedId is the id of the snapshot last merged for the player. */
  datatype Tracker = Tracker(
    mergedId: nat, sendDiff: bool, unackdUpdates: nat, seqNum: nat, lastSentId: nat, ackTime: nat, cTime: nat)
  {
    /** needsUpdate */
    predicate Needs(newestId: nat)
    {
      mergedId != newestId && unackdUpdates < MAX_SNAPS_WITHOUT_ACK
    }

    /** The part of onRecvPacket in front of the input. */
    function Heard(r: AckRead, outOfOrder: bool): Tracker
    {
      if r.AckTooShort? then this
      else if outOfOrder then this.(unackdUpdates := 0)
      else this.(unackdUpdates := 0, sendDiff := true, ackTime := r.ackTime, cTime := r.cTime)
    }

    predicate SendsDelta(ids: seq<nat>)
    {
      sendDiff && BehindId(ids, ackTime) > 0
    }

    /** The id of the merge of this ring's window: a snapshot merged with nothing has id 0. */
    function MergeId(ids: seq<nat>): nat
    {
      if BehindId(ids, ackTime) < |ids| then ids[|ids| - 1] else 0
    }

    /** After a delta, or else the full copy, has gone out. */
    function Sent(delta: bool, seqInc: nat, newestId: nat): Tracker
    {
      this.(sendDiff := delta, unackdUpdates := if delta then unackdUpdates + 1 else MAX_SNAPS_WITHOUT_ACK,
            lastSentId := if delta then mergedId else newestId, seqNum := (seqNum + seqInc) % 256)
    }

    /** update, of a ring with these ids. */
    function Updated(ids: seq<nat>, newestId: nat): Tracker
    {
      if SendsDelta(ids)
      then this.(mergedId := MergeId(ids)).Sent(true, |ids| - BehindId(ids, lastSentId), newestId)
      else Sent(false, 1, newestId)
    }
  }

  lemma {:induction false} MergeAllAscends(images: seq<Image>)
    requires Sound(images)
    ensures Ascending(MergeAll(Views(images)).entities)
    ensures forall e | e in MergeAll(Views(images)).entities :: e.id < 65536
  {
    if images != [] {
      var n := |images| - 1;
      MergeAllAscends(images[..n]);
      assert Views(images)[..n] == Views(images[..n]);
      UnionLookup(MergeAll(Views(images[..n])).entities, images[n].entities, 0);
      UnionMembers(MergeAll(Views(images[..n])).entities, images[n].entities);
    }
  }

  class ServerPlayerGameState {
    const snapshot: DeltaSnapshot
    const buffer: Packet
    var sendDiff: bool
    var unackdUpdates: nat
    var seqNum: nat
    var lastSentId: nat
    var ackTime: nat
    var cTime: nat

    ghost function Repr(): set<object>
      reads this, snapshot, snapshot.fieldData, snapshot.buffer, buffer
    {
      {this} + snapshot.Repr() + buffer.Repr()
    }

    ghost predicate Valid()
      reads this, snapshot, snapshot.fieldData, snapshot.buffer, buffer
    {
      && snapshot.Valid() && buffer.Valid() && buffer.Repr() !! snapshot.Repr()
      && this !in snapshot.Repr() && snapshot.id < 65536
      && snapshot.delCount <= 65536 && snapshot.fullCount <= 65536 && snapshot.updCount <= 65536
      && seqNum < 256 && lastSentId < 65536 && ackTime < 65536 && cTime < 65536
    }

    ghost function State(): Tracker
      reads this, snapshot
    {
      Tracker(snapshot.id, sendDiff, unackdUpdates, seqNum, lastSentId, ackTime, cTime)
    }

    constructor ()
      ensures Valid() && fresh(Repr()) && State() == NEW_PLAYER
    {
      snapshot := new DeltaSnapshot(0);
      buffer := new Packet(MAX_PACKET_SIZE);
      sendDiff, unackdUpdates, seqNum, lastSentId, ackTime, cTime := false, 0, 0, 0, 0, 0;
    }

    /** The acknowledgement part of onRecvPacket. An old packet proves the client alive, nothing more. */
    method OnRecvPacket(p: Packet, outOfOrder: bool) returns (ok: bool)
      requires Valid() && p.Valid() && p.Repr() !! Repr() && p.used < SIZE_T / 2
      modifies this`sendDiff, this`unackdUpdates, this`ackTime, this`cTime, p`pos
      ensures Valid() && p.Valid() && p.Contents() == old(p.Contents())
      ensures var r := ReadAck(p.Contents(), old(p.pos));
              && ok == r.AckRead? && unackdUpdates == (if ok then 0 else old(unackdUpdates))
              && if ok && !outOfOrder then sendDiff && r == AckRead(ackTime, cTime, p.pos)
                 else sendDiff == old(sendDiff) && ackTime == old(ackTime) && cTime == old(cTime) && p.pos == old(p.pos)
      ensures State() == old(State()).Heard(ReadAck(p.Contents(), old(p.pos)), outOfOrder)
    {
      hide Decode, DeltaSnapshot.Valid, FromBigEndian, Pow2, Pow256;
      if p.used - p.pos < MIN_PACKET_LEN {
        return false;
      }
      unackdUpdates := 0;
      if outOfOrder {
        return true;
      }
      sendDiff := true;
      ackTime := p.ReadBE(2);
      TwoBytes();
      NeverOverflows(p.Contents(), p.pos);
      var v, n := DecodePacket(p, 16);
      cTime := (ackTime + v) % 65536;
      return true;
    }

    predicate NeedsUpdate(serverSnapshotId: nat)
      reads this, snapshot
      ensures NeedsUpdate(serverSnapshotId) == State().Needs(serverSnapshotId)
    {
      snapshot.id != serverSnapshotId && unackdUpdates < MAX_SNAPS_WITHOUT_ACK
    }

    /** reset() and mergeWithNext() of every delta behind the acknowledged one. */
    method MergeWindow(snaps: RingBuffer<Image>, base: nat, ghost k: nat)
      requires Valid() && snaps.Valid() && snaps !in snapshot.Repr() && snaps.data !in snapshot.Repr()
      requires this !in {snaps as object, snaps.data}
      requires Sound(snaps.Window()) && k <= snaps.Size() && base == snaps.Slot(k)
      modifies snapshot.Repr()
      ensures Valid() && snaps.Valid() && fresh(snapshot.Repr() - old(snapshot.Repr()))
      ensures Merged(snaps.Window(), k, snaps.Size())
      ensures k == snaps.Size() ==> snapshot.Counted() == old(snapshot.Counted())
    {
      hide Sound, Merged, Queues.Succ, RingBuffer.Window, RingBuffer.Size, RingBuffer.Slot, DeltaSnapshot.Valid, Packet.Valid;
      ghost var w := snaps.Window();
      StartMerge(w, k);
      var ss := base;
      ghost var j := k;
      while ss != snaps.end
        invariant snaps.Valid() && snaps.Window() == w && k <= j <= |w| == snaps.Size() && ss == snaps.Slot(j)
        invariant Valid() && fresh(snapshot.Repr() - old(snapshot.Repr())) && Merged(w, k, j)
        invariant j == k ==> snapshot.Counted() == old(snapshot.Counted())
        decreases |w| - j
      {
        snaps.Moves(j);
        MergeOne(snaps.data[ss], w, k, j);
        ss, j := snaps.Forward(ss), j + 1;
      }
      snaps.Moves(j);
    }

    /** The snapshot holds the merge of the deltas from k up to j. */
    ghost predicate Merged(w: seq<Image>, k: nat, j: nat)
      requires snapshot.Valid() && k <= j <= |w|
      reads snapshot, snapshot.fieldData, snapshot.buffer, snapshot.Repr()
    {
      && Sound(w[k..j]) && snapshot.View() == MergeAll(Views(w[k..j]))
      && (j > k ==> snapshot.Counted() == ExactCounts(snapshot.entities) && snapshot.id == w[j - 1].id)
      && (j == k ==> snapshot.id == 0)
    }

    lemma MergedId(w: seq<Image>, k: nat)
      requires snapshot.Valid() && k <= |w| && Merged(w, k, |w|)
      ensures snapshot.id == NewestId(w, k)
    {
    }

    method StartMerge(ghost w: seq<Image>, ghost k: nat)
      requires Valid() && k <= |w|
      modifies snapshot.Repr()
      ensures Valid() && snapshot.Repr() == old(snapshot.Repr()) && Merged(w, k, k)
      ensures snapshot.Counted() == old(snapshot.Counted())
    {
      snapshot.Reset();
      assert w[k..k] == [];
      NothingMerged();
    }

    method MergeOne(image: Image, ghost w: seq<Image>, ghost k: nat, ghost j: nat)
      requires Valid() && Sound(w) && k <= j < |w| && image == w[j] && Merged(w, k, j)
      modifies snapshot.Repr()
      ensures Valid() && fresh(snapshot.Repr() - old(snapshot.Repr())) && Merged(w, k, j + 1)
    {
      hide MergeAll, ExactCounts, Merge, Views;
      assert image in w;
      snapshot.MergeWithNext(image);
      MergedNext(w, k, j);
      MergeAllAscends(w[k..j + 1]);
      AscendingBound(snapshot.entities, 0);
      CountsBound(snapshot.entities);
    }

    /** The id, the sequence number and the ping. */
    method WriteHeader(id: nat, ping: nat)
      requires Valid() && id < 65536 && ping < Pow2(64)
      modifies buffer.Repr()
      ensures Valid() && buffer.Contents() == UpdateHeader(id, seqNum, ping) && buffer.pos == buffer.used
      ensures buffer.data == old(buffer.data) || fresh(buffer.data)
    {
      hide Enc, Pow2, Overwrite;
      buffer.Reset();
      buffer.WriteBE(2, id);
      buffer.Write8(seqNum);
      var n := Encode(buffer, 64, ping);
    }

    /** The snapshot that goes out: the merged window behind the acknowledged delta while the ring
        still holds it, otherwise the full copy, and no delta again until the client acknowledges. */
    method Update(snaps: RingBuffer<Image>, master: Snapshot, ping: nat)
      requires Valid() && snaps.Valid() && master.Valid() && ping < Pow2(64) && Sound(snaps.Window())
      requires Repr() !! master.Repr() && Repr() !! {snaps as object, snaps.data}
      requires master.id < 65536 && |master.edata| < Pow2(64)
      requires forall ed | ed in master.edata :: ed.eid < 65536 && ed.etype < 65536
      modifies Repr()
      ensures Valid()
      ensures var w := snaps.Window(); var k := Behind(w, ackTime);
              if old(sendDiff) && k > 0
              then && sendDiff && unackdUpdates == old(unackdUpdates) + 1
                   && Merged(w, k, |w|) && (k == |w| ==> snapshot.Counted() == old(snapshot.Counted()))
                   && lastSentId == snapshot.id
                   && seqNum == (old(seqNum) + (|w| - Behind(w, old(lastSentId)))) % 256
                   && buffer.Contents() == UpdateHeader(snapshot.id, old(seqNum), ping)
                                           + SnapshotBytes(snapshot.View(), snapshot.Counted())
              else && !sendDiff && unackdUpdates == MAX_SNAPS_WITHOUT_ACK && snapshot.id == old(snapshot.id)
                   && lastSentId == master.id && seqNum == (old(seqNum) + 1) % 256
                   && buffer.Contents() == UpdateHeader(master.id, old(seqNum), ping) + MasterBytes(master.edata)
      ensures State() == old(State()).Updated(Ids(snaps.Window()), master.id)
    {
      hide Enc, Pow2, Overwrite, SnapshotBytes, MasterBytes, Merged, Sound, UpdateHeader, Behind, BehindId, Ids,
        RingBuffer.Window, RingBuffer.Size, RingBuffer.Slot, DeltaSnapshot.Valid, Packet.Valid,
        Tracker.Updated, Tracker.Sent, NewestId;
      ghost var w := snaps.Window();
      var found, seqInc := Prepare(snaps, master.id);
      SendChosen(found, seqInc, master, ping, w, Behind(w, ackTime));
    }

    /** The choice, and what it makes of the state once the packet is out. */
    method Prepare(snaps: RingBuffer<Image>, ghost newestId: nat) returns (diff: bool, seqInc: nat)
      requires Valid() && snaps.Valid() && Sound(snaps.Window())
      requires this !in {snaps as object, snaps.data}
      requires snaps !in snapshot.Repr() && snaps.data !in snapshot.Repr()
      modifies snapshot.Repr()
      ensures Valid() && fresh(snapshot.Repr() - old(snapshot.Repr()))
      ensures var w := snaps.Window(); var k := Behind(w, ackTime);
              && (diff <==> sendDiff && k > 0)
              && (diff ==> Merged(w, k, |w|) && seqInc == |w| - Behind(w, lastSentId))
              && (diff && k == |w| ==> snapshot.Counted() == old(snapshot.Counted()))
              && (!diff ==> seqInc == 1)
              && snapshot.id == (if diff then NewestId(w, k) else old(snapshot.id))
      ensures State().Sent(diff, seqInc, newestId) == old(State()).Updated(Ids(snaps.Window()), newestId)
    {
      hide Merged, Sound, Behind, BehindId, Ids, Queues.Succ, RingBuffer.Window, RingBuffer.Size, RingBuffer.Valid,
        DeltaSnapshot.Valid, Packet.Valid, Tracker.Updated, Tracker.Sent, Tracker.MergeId, Tracker.SendsDelta;
      ghost var before, w := State(), snaps.Window();
      diff, seqInc := ChooseSnapshot(snaps);
      Choices(before, State(), w, diff, seqInc, newestId);
    }

    static lemma Choices(before: Tracker, now: Tracker, w: seq<Image>, diff: bool, seqInc: nat, newestId: nat)
      requires now == before.(mergedId := if diff then NewestId(w, Behind(w, before.ackTime)) else before.mergedId)
      requires diff <==> before.sendDiff && Behind(w, before.ackTime) > 0
      requires seqInc == if diff then |w| - Behind(w, before.lastSentId) else 1
      ensures now.Sent(diff, seqInc, newestId) == before.Updated(Ids(w), newestId)
    {
      hide BehindId, Behind;
      BehindIds(w, before.ackTime);
      BehindIds(w, before.lastSentId);
    }

    method AdvanceSeq(seqInc: nat, ghost w: seq<Image>, ghost k: nat)
      requires Valid() && k <= |w|
      modifies this`seqNum
      ensures Valid() && seqNum == (old(seqNum) + seqInc) % 256
      ensures old(Merged(w, k, |w|)) ==> Merged(w, k, |w|)
    {
      hide Merged;
      seqNum := (seqNum + seqInc) % 256;
    }

    method SendChosen(diff: bool, seqInc: nat, master: Snapshot, ping: nat, ghost w: seq<Image>, ghost k: nat)
      requires Valid() && master.Valid() && ping < Pow2(64) && Repr() !! master.Repr()
      requires master.id < 65536 && |master.edata| < Pow2(64)
      requires forall ed | ed in master.edata :: ed.eid < 65536 && ed.etype < 65536
      requires k <= |w| && (diff ==> Merged(w, k, |w|))
      modifies this`sendDiff, this`unackdUpdates, this`lastSentId, this`seqNum, buffer.Repr()
      ensures Valid() && seqNum == (old(seqNum) + seqInc) % 256 && sendDiff == diff && (diff ==> Merged(w, k, |w|))
      ensures unackdUpdates == if diff then old(unackdUpdates) + 1 else MAX_SNAPS_WITHOUT_ACK
      ensures lastSentId == if diff then snapshot.id else master.id
      ensures State() == old(State()).Sent(diff, seqInc, master.id)
      ensures buffer.Contents() ==
              if diff then UpdateHeader(snapshot.id, old(seqNum), ping) + SnapshotBytes(snapshot.View(), snapshot.Counted())
              else UpdateHeader(master.id, old(seqNum), ping) + MasterBytes(master.edata)
    {
      hide Enc, Pow2, Overwrite, SnapshotBytes, MasterBytes, Merged, UpdateHeader;
      Account(diff, w, k);
      if diff {
        SendMerged(ping, w, k);
      } else {
        SendMaster(master, ping);
      }
      AdvanceSeq(seqInc, w, k);
    }

    method Account(diff: bool, ghost w: seq<Image>, ghost k: nat)
      requires Valid() && k <= |w| && (diff ==> Merged(w, k, |w|))
      modifies this`sendDiff, this`unackdUpdates
      ensures Valid() && sendDiff == diff && (diff ==> Merged(w, k, |w|))
      ensures unackdUpdates == if diff then old(unackdUpdates) + 1 else MAX_SNAPS_WITHOUT_ACK
    {
      hide Merged;
      sendDiff := diff;
      unackdUpdates := if sendDiff then unackdUpdates + 1 else MAX_SNAPS_WITHOUT_ACK;
    }

    method SendMaster(master: Snapshot, ping: nat)
      requires Valid() && master.Valid() && ping < Pow2(64) && Repr() !! master.Repr()
      requires master.id < 65536 && |master.edata| < Pow2(64)
      requires forall ed | ed in master.edata :: ed.eid < 65536 && ed.etype < 65536
      modifies this`lastSentId, buffer.Repr()
      ensures Valid() && lastSentId == master.id && (buffer.data == old(buffer.data) || fresh(buffer.data))
      ensures buffer.Contents() == UpdateHeader(master.id, seqNum, ping) + MasterBytes(master.edata)
    {
      hide Enc, Pow2, Overwrite, MasterBytes, UpdateHeader;
      lastSentId := master.id;
      WriteHeader(master.id, ping);
      master.WriteToPacket(buffer);
    }

    /** Merges the window if the acknowledged delta is still in the ring, or gives deltas up. */
    method ChooseSnapshot(snaps: RingBuffer<Image>) returns (diff: bool, seqInc: nat)
      requires Valid() && snaps.Valid() && Sound(snaps.Window())
      requires this !in {snaps as object, snaps.data}
      requires snaps !in snapshot.Repr() && snaps.data !in snapshot.Repr()
      modifies snapshot.Repr()
      ensures Valid() && fresh(snapshot.Repr() - old(snapshot.Repr()))
      ensures var w := snaps.Window(); var k := Behind(w, ackTime);
              && (diff <==> sendDiff && k > 0)
              && (diff ==> Merged(w, k, |w|) && seqInc == |w| - Behind(w, lastSentId))
              && (diff && k == |w| ==> snapshot.Counted() == old(snapshot.Counted()))
              && (!diff ==> seqInc == 1)
              && snapshot.id == (if diff then NewestId(w, k) else old(snapshot.id))
    {
      hide Merged, Sound, Behind, Queues.Succ, RingBuffer.Window, RingBuffer.Size, RingBuffer.Slot, NewestId,
        DeltaSnapshot.Valid, Packet.Valid;
      diff, seqInc := sendDiff, 1;
      if diff {
        diff := MergeFromAck(snaps);
        if diff {
          seqInc := CountSince(snaps, lastSentId);
        }
      }
    }

    method MergeFromAck(snaps: RingBuffer<Image>) returns (found: bool)
      requires Valid() && snaps.Valid() && Sound(snaps.Window())
      requires this !in {snaps as object, snaps.data}
      requires snaps !in snapshot.Repr() && snaps.data !in snapshot.Repr()
      modifies snapshot.Repr()
      ensures Valid() && fresh(snapshot.Repr() - old(snapshot.Repr()))
      ensures var w := snaps.Window(); var k := Behind(w, ackTime);
              && (found <==> k > 0) && (found ==> Merged(w, k, |w|))
              && (!found || k == |w| ==> snapshot.Counted() == old(snapshot.Counted()))
              && snapshot.id == if found then NewestId(w, k) else old(snapshot.id)
    {
      hide Merged, Sound, Behind, Queues.Succ;
      var base, k := FindTick(snaps, ackTime);
      snaps.Moves(k);
      found := base != snaps.start;
      if found {
        MergeWindow(snaps, base, k);
        MergedId(snaps.Window(), k);
      }
    }

    /** distance(find(...).base(), snaps.end()) */
    method CountSince(snaps: RingBuffer<Image>, id: nat) returns (n: nat)
      requires snaps.Valid()
      ensures n == |snaps.Window()| - Behind(snaps.Window(), id)
    {
      var base, k := FindTick(snaps, id);
      n := snaps.DistanceToEnd(base, k);
    }

    /** find(snaps.rbegin(), snaps.rend(), id).base() */
    method FindTick(snaps: RingBuffer<Image>, id: nat) returns (base: nat, ghost k: nat)
      requires snaps.Valid()
      ensures k == Behind(snaps.Window(), id) && base == snaps.Slot(k)
    {
      base, k := snaps.FindFromEnd((im: Image) => im.id == id);
      BehindUnique(snaps.Window(), id, k);
    }

    method SendMerged(ping: nat, ghost w: seq<Image>, ghost k: nat)
      requires Valid() && ping < Pow2(64) && k <= |w| && Merged(w, k, |w|)
      modifies this`lastSentId, buffer.Repr()
      ensures Valid() && lastSentId == snapshot.id && Merged(w, k, |w|)
      ensures buffer.data == old(buffer.data) || fresh(buffer.data)
      ensures buffer.Contents() == UpdateHeader(snapshot.id, seqNum, ping) + SnapshotBytes(snapshot.View(), snapshot.Counted())
    {
      hide Enc, Pow2, Overwrite, SnapshotBytes, Merged, UpdateHeader;
      Below64();
      lastSentId := snapshot.id;
      WriteHeader(snapshot.id, ping);
      snapshot.WriteToPacket(buffer);
    }
  }

  lemma NothingMerged()
    ensures MergeAll(Views([])) == EMPTY_DELTA
  {
  }

  lemma MergedNext(w: seq<Image>, k: nat, j: nat)
    requires Sound(w) && k <= j < |w|
    ensures Sound(w[k..j + 1]) && Sound(w[k..j])
    ensures MergeAll(Views(w[k..j + 1])) == Merge(MergeAll(Views(w[k..j])), w[j].View())
  {
    hide Merge;
    var x := w[k..j + 1];
    assert x[..|x| - 1] == w[k..j] && x[|x| - 1] == w[j];
    assert Views(x) == Views(w[k..j]) + [w[j].View()];
    assert Views(x)[..|x| - 1] == Views(w[k..j]);
  }

  /** End to end. The update packet of a player whose acknowledged tick lies before position k of the
      ring, read by that player's client at any later tick t, takes the client to the newest world,
      provided it holds what the window last updates partially; otherwise it rejects the packet.
      The messages that follow the snapshot start where the reader stops. */
  lemma UpdateDelivered(schema: Schema, images: seq<Image>, ws: seq<World>, k: nat, t: nat,
                        id: nat, seqNum: nat, ping: nat, messages: Bytes)
    requires Records(images, ws) && k < |images| && k <= t <= |images| && seqNum < 256
    requires TicksInOrder(Views(images[k..]))
    requires forall d | d in Views(images[k..]) :: Describes(schema, d)
    requires Conforms(schema, ws[t]) && TypesKept(Views(images[k..]), ws[t])
    ensures var d := MergeAll(Views(images[k..]));
            var start := UpdateHeader(id, seqNum, ping) + SnapshotBytes(d, ExactCounts(d.entities));
            var r := ReadSnapshot(schema, start + messages, |UpdateHeader(id, seqNum, ping)|, ws[t]);
            if HoldsUpdated(Views(images[k..]), ws[t]) then r == Done(ws[|images|], |start|) else r.Rejected?
  {
    hide *;
    SuffixValid(images, ws, k);
    var ds := Views(images[k..]);
    var d := MergeAll(ds);
    var head, body := UpdateHeader(id, seqNum, ping), SnapshotBytes(d, ExactCounts(d.entities));
    SuffixRecords(images, ws, k);
    SuffixWorlds(images, ws, k, t);
    Placed(head, body, messages);
    WindowDelivered(schema, ds, ws[k..], t - k, head + body + messages, |head|);
  }
}
