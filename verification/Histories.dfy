/** What the ring of deltas stands for: the last stretch of the server's whole history. */
module Histories {
  import opened Packets
  import opened Codecs
  import opened Deltas
  import opened Merges
  import opened Worlds
  import opened DeltaSnapshots

  ghost function Views(images: seq<Image>): (ds: seq<Delta>)
    requires forall im | im in images :: im.Valid()
    ensures |ds| == |images| && forall i | 0 <= i < |ds| :: ds[i] == images[i].View()
  {
    if images == [] then [] else Views(images[..|images| - 1]) + [images[|images| - 1].View()]
  }

  /** A ring of deltas as ticks leave them: ids of 16 bits, records in order. */
  ghost predicate Sound(images: seq<Image>)
  {
    forall im | im in images :: im.Valid() && im.id < 65536 && Ascending(im.entities)
  }

  /** What the ring records: ws are the worlds before, between and after its deltas. */
  ghost predicate Records(images: seq<Image>, ws: seq<World>)
  {
    Sound(images) && History(Views(images), ws)
  }

  lemma SuffixValid(images: seq<Image>, ws: seq<World>, k: nat)
    requires Records(images, ws) && k <= |images|
    ensures forall im | im in images[k..] :: im.Valid()
  {
    hide Step, WellFormed, Ordered;
  }

  lemma SuffixRecords(images: seq<Image>, ws: seq<World>, k: nat)
    requires Records(images, ws) && k <= |images|
    ensures History(Views(images[k..]), ws[k..])
  {
    hide Step, WellFormed, Ordered;
    forall i | 0 <= i < |images| - k ensures Views(images[k..])[i] == Views(images)[k + i] {
    }
  }

  lemma SuffixWorlds(images: seq<Image>, ws: seq<World>, k: nat, t: nat)
    requires Records(images, ws) && k <= t <= |images|
    ensures |ws| == |images| + 1 && |Views(images[k..])| == |images| - k
    ensures ws[k..][t - k] == ws[t] && ws[k..][|images| - k] == ws[|images|]
  {
    hide Step, WellFormed, Ordered;
  }

  // ---------------------------------------------------------------- how much of it is kept

  /** NRG_NUM_PAST_SNAPSHOTS */
  const NUM_PAST_SNAPSHOTS: nat := 32

  /** The ring holds one tick less than its size, once that many have been made. */
  function Held(n: nat): (r: nat)
    ensures r <= n
  {
    if n < NUM_PAST_SNAPSHOTS then n else NUM_PAST_SNAPSHOTS - 1
  }

  /** The ring holds the last ticks, under their ids. */
  predicate Kept(ids: seq<nat>, ring: seq<Image>)
  {
    |ring| == Held(|ids|) && forall i :: 0 <= i < |ring| ==> ring[i].id == ids[|ids| - |ring| + i]
  }

  /** One tick more: the ring takes it in and drops its oldest when it is full. */
  lemma KeptGrows(ids: seq<nat>, ring: seq<Image>, image: Image)
    requires Kept(ids, ring)
    ensures Kept(ids + [image.id], if |ring| + 1 < NUM_PAST_SNAPSHOTS then ring + [image] else (ring + [image])[1..])
  {
  }

  // ---------------------------------------------------------------- the whole history

  /** The worlds the deltas of every tick take an empty one through, up to the one published last,
      and the ring that holds the newest of those deltas. */
  ghost predicate Chronicle(deltas: seq<Delta>, worlds: seq<World>, published: World, ring: seq<Image>)
  {
    && History(deltas, worlds) && worlds[0] == map[] && worlds[|deltas|] == published
    && Sound(ring) && |ring| <= |deltas| && Views(ring) == deltas[|deltas| - |ring|..]
  }

  lemma ChronicleEnds(deltas: seq<Delta>, worlds: seq<World>, published: World, ring: seq<Image>)
    requires Chronicle(deltas, worlds, published, ring)
    ensures |worlds| == |deltas| + 1 && worlds[|deltas|] == published
  {
    hide Step, WellFormed, Ordered, Sound;
  }

  lemma ChronicleStarts()
    ensures Chronicle([], [map[]], map[], [])
  {
  }

  /** A tick adds a delta and a world; the ring takes the delta in and may drop its oldest. */
  lemma ChronicleGrows(deltas: seq<Delta>, worlds: seq<World>, published: World, ring: seq<Image>,
                       image: Image, next: World, grown: seq<Image>)
    requires Chronicle(deltas, worlds, published, ring)
    requires image.Valid() && image.id < 65536 && WellFormed(image.View()) && Ordered(image.View().items)
    requires Step(image.View(), published, next)
    requires grown == ring + [image] || grown == (ring + [image])[1..]
    ensures Chronicle(deltas + [image.View()], worlds + [next], next, grown)
  {
    hide Step, WellFormed, Ordered, Sound, Views, Image.View, Image.Valid;
    SoundGrows(ring, image, grown);
    HistoryGrows(deltas, worlds, image.View(), next);
    RingGrows(deltas, ring, image, grown);
    LastWorld(worlds, next);
  }

  lemma LastWorld(worlds: seq<World>, next: World)
    requires worlds != []
    ensures (worlds + [next])[0] == worlds[0] && (worlds + [next])[|worlds|] == next
  {
  }

  lemma SoundGrows(ring: seq<Image>, image: Image, grown: seq<Image>)
    requires Sound(ring) && image.Valid() && image.id < 65536 && WellFormed(image.View())
    requires grown == ring + [image] || grown == (ring + [image])[1..]
    ensures Sound(grown)
  {
    hide WellFormed, Ascending, Image.Valid;
    WellFormedAscends(image.View());
    forall im | im in grown ensures im.Valid() && im.id < 65536 && Ascending(im.entities) {
      assert im in ring || im == image;
    }
  }

  lemma WellFormedAscends(d: Delta)
    requires WellFormed(d)
    ensures Ascending(d.entities)
  {
  }

  lemma HistoryGrows(deltas: seq<Delta>, worlds: seq<World>, d: Delta, next: World)
    requires History(deltas, worlds) && WellFormed(d) && Ordered(d.items) && Step(d, worlds[|deltas|], next)
    ensures History(deltas + [d], worlds + [next])
  {
    hide Step, WellFormed, Ordered;
    var ds, ws := deltas + [d], worlds + [next];
    forall i | 0 <= i < |ds| ensures Step(ds[i], ws[i], ws[i + 1]) {
      if i < |deltas| {
        assert Step(deltas[i], worlds[i], worlds[i + 1]);
      }
    }
  }

  lemma RingGrows(deltas: seq<Delta>, ring: seq<Image>, image: Image, grown: seq<Image>)
    requires Sound(ring) && image.Valid() && |ring| <= |deltas| && Views(ring) == deltas[|deltas| - |ring|..]
    requires grown == ring + [image] || grown == (ring + [image])[1..]
    ensures (forall im | im in grown :: im.Valid()) && |grown| <= |deltas| + 1
    ensures Views(grown) == (deltas + [image.View()])[|deltas| + 1 - |grown|..]
  {
    hide Image.View, Image.Valid, Sound, Views;
    GrownValid(ring, image, grown);
    var ds, all, n := Views(grown), deltas + [image.View()], |deltas| + 1 - |grown|;
    forall i | 0 <= i < |grown|
      ensures ds[i] == all[n + i]
    {
      RingEntry(deltas, ring, image, i + |ring| + 1 - |grown|);
    }
    SuffixIs(ds, all, n);
  }

  lemma SuffixIs<T>(s: seq<T>, all: seq<T>, n: nat)
    requires n + |s| == |all| && forall i :: 0 <= i < |s| ==> s[i] == all[n + i]
    ensures s == all[n..]
  {
  }

  lemma GrownValid(ring: seq<Image>, image: Image, grown: seq<Image>)
    requires Sound(ring) && image.Valid() && (grown == ring + [image] || grown == (ring + [image])[1..])
    ensures forall im | im in grown :: im.Valid()
  {
    hide Image.Valid, Ascending;
    forall im | im in grown ensures im.Valid() {
      assert im in ring || im == image;
    }
  }

  /** The k-th of the ring and the new image behind it. */
  lemma RingEntry(deltas: seq<Delta>, ring: seq<Image>, image: Image, k: nat)
    requires Sound(ring) && image.Valid() && |ring| <= |deltas| && Views(ring) == deltas[|deltas| - |ring|..] && k <= |ring|
    ensures (ring + [image])[k].Valid()
    ensures (ring + [image])[k].View() == (deltas + [image.View()])[|deltas| - |ring| + k]
  {
    hide Image.View, Image.Valid, Ascending;
    if k < |ring| {
      assert ring[k] in ring;
      assert Views(ring)[k] == ring[k].View();
    }
  }

  /** So the ring records the last worlds of the history. */
  lemma RingRecords(deltas: seq<Delta>, worlds: seq<World>, published: World, ring: seq<Image>)
    requires Chronicle(deltas, worlds, published, ring)
    ensures |worlds| == |deltas| + 1 && |ring| <= |deltas|
    ensures Records(ring, worlds[|deltas| - |ring|..])
  {
    hide Step, WellFormed, Ordered;
    var n := |deltas| - |ring|;
    forall i | 0 <= i < |ring|
      ensures Step(Views(ring)[i], worlds[n..][i], worlds[n..][i + 1])
      ensures WellFormed(Views(ring)[i]) && Ordered(Views(ring)[i].items)
    {
      assert Views(ring)[i] == deltas[n..][i] == deltas[n + i];
      assert worlds[n..][i + 1] == worlds[n + i + 1];
    }
  }

  /** The deltas behind a position of the ring are those of the last ticks. */
  lemma RingSuffix(deltas: seq<Delta>, worlds: seq<World>, published: World, ring: seq<Image>, k: nat)
    requires Chronicle(deltas, worlds, published, ring) && k <= |ring|
    ensures (forall im | im in ring[k..] :: im.Valid()) && |ring| <= |deltas|
    ensures Views(ring[k..]) == deltas[|deltas| - |ring| + k..]
  {
    hide History;
    var n := |deltas| - |ring|;
    forall i | 0 <= i < |ring| - k
      ensures Views(ring[k..])[i] == deltas[n + k..][i]
    {
      assert Views(ring)[k + i] == deltas[n..][k + i];
    }
  }
}
