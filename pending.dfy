/** The `pending_events` dictionary of the compressor: a Python dict keyed by
    identity string, which remembers insertion order. It is modelled as a
    sequence of (identity, press event) entries in insertion order. */
module PendingPresses {
  import opened CompressorTypes

  type Entry = (string, Event)
  type Pending = seq<Entry>

  /** A dictionary never holds a key twice. */
  predicate DistinctIds(p: Pending)
  {
    forall i, j :: 0 <= i < j < |p| ==> p[i].0 != p[j].0
  }

  /** Position of `id` (`id in d`), or -1 when it is absent. */
  function Find(p: Pending, id: string): (i: int)
    ensures -1 <= i < |p|
    ensures 0 <= i ==> p[i].0 == id && forall j :: 0 <= j < i ==> p[j].0 != id
    ensures i == -1 <==> forall j :: 0 <= j < |p| ==> p[j].0 != id
  {
    if p == [] then -1
    else if p[0].0 == id then 0
    else
      var k := Find(p[1..], id);
      if k < 0 then -1 else k + 1
  }

  /** `d.pop(id)` once the position of `id` is known: the entry is removed and
      the others keep their order. */
  function RemoveAt(p: Pending, i: int): (q: Pending)
    requires 0 <= i < |p|
    ensures |q| == |p| - 1
    ensures forall j :: 0 <= j < i ==> q[j] == p[j]
    ensures forall j :: i <= j < |q| ==> q[j] == p[j + 1]
  {
    p[..i] + p[i + 1..]
  }

  /** `d[id] = ev`: an existing key keeps its place, a new key goes last. */
  function Assign(p: Pending, id: string, ev: Event): (q: Pending)
  {
    var i := Find(p, id);
    if 0 <= i then p[i := (id, ev)] else p + [(id, ev)]
  }

  lemma RemoveAtKeepsDistinct(p: Pending, i: int)
    requires DistinctIds(p) && 0 <= i < |p|
    ensures DistinctIds(RemoveAt(p, i))
    ensures Find(RemoveAt(p, i), p[i].0) == -1
  {
    var q := RemoveAt(p, i);
    forall a, b | 0 <= a < b < |q| ensures q[a].0 != q[b].0 {
      var a' := if a < i then a else a + 1;
      var b' := if b < i then b else b + 1;
      assert q[a] == p[a'] && q[b] == p[b'];
    }
    forall j | 0 <= j < |q| ensures q[j].0 != p[i].0 {
      var j' := if j < i then j else j + 1;
      assert q[j] == p[j'];
    }
  }

  /** After `d[id] = ev` the key is present exactly once, bound to `ev`; when it
      was absent, the entry is last and every other entry is untouched; when
      it was present, it keeps its place and every other entry keeps its
      place and value. */
  lemma AssignSpec(p: Pending, id: string, ev: Event)
    requires DistinctIds(p)
    ensures DistinctIds(Assign(p, id, ev))
    ensures var q := Assign(p, id, ev); var k := Find(q, id); 0 <= k && q[k] == (id, ev)
    ensures Find(p, id) == -1 ==> Assign(p, id, ev) == p + [(id, ev)] && Find(Assign(p, id, ev), id) == |p|
    ensures 0 <= Find(p, id) ==> |Assign(p, id, ev)| == |p|
    ensures var i, q := Find(p, id), Assign(p, id, ev);
      0 <= i ==> Find(q, id) == i && forall j :: 0 <= j < |p| && j != i ==> q[j] == p[j]
  {
    var i := Find(p, id);
    var q := Assign(p, id, ev);
    if 0 <= i {
      assert q[i].0 == id;
      assert forall j :: 0 <= j < i ==> q[j] == p[j];
      assert Find(q, id) == i;
    } else {
      assert q[|p|].0 == id;
      assert Find(q, id) == |p|;
    }
  }
}
