/** Which tick an acknowledgement is taken for. A client names the last tick it has read by sixteen bits
    of the server's clock, and the server searches the ring for them from its newest tick backwards
    (src/nrg_server.cpp:181-182, src/nrg_serverstate.cpp:221, 253). */
module Acknowledgements {
  import opened Codecs
  import opened DeltaSnapshots
  import opened Histories
  import PlayerStates

  /** The newest of the last `held` ticks with this id; the k-th tick has ids[k - 1]. */
  function ResolveIn(ids: seq<nat>, held: nat, id: nat): (r: Option<nat>)
    requires held <= |ids|
    ensures r.Some? ==> |ids| - held < r.value <= |ids| && ids[r.value - 1] == id
    ensures forall j :: (if r.Some? then r.value else |ids| - held) <= j < |ids| ==> ids[j] != id
    decreases held
  {
    if held == 0 then None
    else if ids[|ids| - 1] == id then Some(|ids|)
    else ResolveIn(ids[..|ids| - 1], held - 1, id)
  }

  function Resolve(ids: seq<nat>, id: nat): (r: Option<nat>)
    ensures r.Some? ==> 0 < r.value <= |ids| && ids[r.value - 1] == id
  {
    ResolveIn(ids, Held(|ids|), id)
  }

  /** The search in the ring ends behind the tick so found, or at the start of the ring. */
  lemma ResolveIsBehind(ids: seq<nat>, ring: seq<Image>, id: nat)
    requires Kept(ids, ring)
    ensures var k := PlayerStates.Behind(ring, id);
            match Resolve(ids, id)
            case None => k == 0
            case Some(j) => k > 0 && j == |ids| - |ring| + k
  {
    var r := Resolve(ids, id);
    var n := |ids| - |ring|;
    var k := if r.Some? then r.value - n else 0;
    forall j | k <= j < |ring|
      ensures ring[j].id != id
    {
      assert ids[n + j] != id;
    }
    PlayerStates.BehindUnique(ring, id, k);
  }

  /** An acknowledgement is taken for the tick it is of if and only if the ring still holds that tick
      and no newer tick has the same sixteen bits. */
  lemma ResolvesIff(ids: seq<nat>, k: nat)
    requires 0 < k <= |ids|
    ensures Resolve(ids, ids[k - 1]) == Some(k) <==>
            |ids| - k < Held(|ids|) && forall j :: k <= j < |ids| ==> ids[j] != ids[k - 1]
  {
    var r := Resolve(ids, ids[k - 1]);
    if |ids| - k < Held(|ids|) && forall j :: k <= j < |ids| ==> ids[j] != ids[k - 1] {
      assert r.Some? ==> r.value <= k;
    }
  }

  /** Otherwise it is taken for a newer tick, or the player is sent the full copy. */
  lemma ResolvesLater(ids: seq<nat>, k: nat)
    requires 0 < k <= |ids|
    ensures match Resolve(ids, ids[k - 1])
            case None => |ids| - k >= Held(|ids|)
            case Some(j) => k <= j
  {
  }

  /** The merged window is empty if and only if the id is that of the newest tick. The server makes a
      tick between hearing and sending, so the acknowledged one is older: two ticks share an id. */
  lemma NewestNamedIff(ids: seq<nat>, id: nat)
    requires ids != []
    ensures Resolve(ids, id) == Some(|ids|) <==> ids[|ids| - 1] == id
  {
  }
}
