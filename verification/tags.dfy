/**
 * The device's tag folder as the gateway's tag manager keeps it: a map from
 * tag path (relative to the device's folder) to the value last written there.
 */
module Tags {
  import opened Wrappers
  import opened JavaNum

  /** The value types the device writes. */
  datatype TagValue =
    | IntTag(i: Int32)
    | LongTag(l: Int64)
    | StrTag(s: string)
    | BoolTag(b: bool)

  /** One `tagUpdate(path, value)` call. */
  datatype TagWrite = TagWrite(path: string, value: TagValue)

  type TagStore = map<string, TagValue>

  function Lookup(tags: TagStore, path: string): Option<TagValue> {
    if path in tags then Some(tags[path]) else None
  }

  /** The tag folder after the writes, applied in order. */
  function ApplyWrites(tags: TagStore, ws: seq<TagWrite>): TagStore {
    if ws == [] then tags
    else ApplyWrites(tags, ws[..|ws| - 1])[ws[|ws| - 1].path := ws[|ws| - 1].value]
  }

  /** The value of the last write to `path`, if any. */
  function LastWrite(ws: seq<TagWrite>, path: string): (r: Option<TagValue>)
    ensures r.None? <==> forall k :: 0 <= k < |ws| ==> ws[k].path != path
    ensures r.Some? ==> exists k :: 0 <= k < |ws| && ws[k] == TagWrite(path, r.value)
  {
    if ws == [] then None
    else if ws[|ws| - 1].path == path then Some(ws[|ws| - 1].value)
    else
      var r := LastWrite(ws[..|ws| - 1], path);
      assert forall k :: 0 <= k < |ws| - 1 ==> ws[..|ws| - 1][k] == ws[k];
      r
  }

  /** A tag reads back the last value written to it, or its old value when nothing was written to it. */
  lemma {:induction false} ApplyWritesLookup(tags: TagStore, ws: seq<TagWrite>, path: string)
    ensures Lookup(ApplyWrites(tags, ws), path)
            == if LastWrite(ws, path).Some? then LastWrite(ws, path) else Lookup(tags, path)
  {
    if ws != [] {
      ApplyWritesLookup(tags, ws[..|ws| - 1], path);
    }
  }

  /** Applying two batches of writes is applying their concatenation. */
  lemma {:induction false} ApplyWritesConcat(tags: TagStore, a: seq<TagWrite>, b: seq<TagWrite>)
    ensures ApplyWrites(tags, a + b) == ApplyWrites(ApplyWrites(tags, a), b)
  {
    if b == [] {
      assert a + b == a;
    } else {
      assert (a + b)[..|a + b| - 1] == a + b[..|b| - 1];
      ApplyWritesConcat(tags, a, b[..|b| - 1]);
    }
  }

  /** Writes to paths other than `path` leave it as it was. */
  lemma WritesElsewhere(tags: TagStore, ws: seq<TagWrite>, path: string)
    requires forall k :: 0 <= k < |ws| ==> ws[k].path != path
    ensures Lookup(ApplyWrites(tags, ws), path) == Lookup(tags, path)
  {
    ApplyWritesLookup(tags, ws, path);
  }

  /** In a batch of writes to distinct paths, the last write to a path is its only one. */
  lemma LastWriteOfDistinct(ws: seq<TagWrite>, w: TagWrite)
    requires w in ws
    requires forall i, j :: 0 <= i < j < |ws| ==> ws[i].path != ws[j].path
    ensures LastWrite(ws, w.path) == Some(w.value)
  {
    var k :| 0 <= k < |ws| && ws[k] == w;
    var r := LastWrite(ws, w.path);
    var k' :| 0 <= k' < |ws| && ws[k'] == TagWrite(w.path, r.value);
    assert k' == k;
  }

  /** One more write updates the folder at its path. */
  lemma ApplyWritesPrefix(tags: TagStore, ws: seq<TagWrite>, k: nat)
    requires k < |ws|
    ensures ApplyWrites(tags, ws[..k + 1]) == ApplyWrites(tags, ws[..k])[ws[k].path := ws[k].value]
  {
    assert ws[..k + 1][..k] == ws[..k];
  }

  /** Applying two writes is two updates in order. */
  lemma ApplyTwo(tags: TagStore, ws: seq<TagWrite>)
    requires |ws| == 2
    ensures ApplyWrites(tags, ws) == tags[ws[0].path := ws[0].value][ws[1].path := ws[1].value]
  {
    assert ws[..0] == [] && ws[..2] == ws;
    ApplyWritesPrefix(tags, ws, 0);
    ApplyWritesPrefix(tags, ws, 1);
  }

  /** Two folders that agree on a path still agree on it after the same writes. */
  lemma ApplyWritesAgree(t1: TagStore, t2: TagStore, ws: seq<TagWrite>, path: string)
    requires Lookup(t1, path) == Lookup(t2, path)
    ensures Lookup(ApplyWrites(t1, ws), path) == Lookup(ApplyWrites(t2, ws), path)
  {
    ApplyWritesLookup(t1, ws, path);
    ApplyWritesLookup(t2, ws, path);
  }

  /** An update at a path no write touches commutes with the writes. */
  lemma {:induction false} ApplyWritesCommute(tags: TagStore, ws: seq<TagWrite>, path: string, v: TagValue)
    requires forall k :: 0 <= k < |ws| ==> ws[k].path != path
    ensures ApplyWrites(tags[path := v], ws) == ApplyWrites(tags, ws)[path := v]
  {
    if ws != [] {
      ApplyWritesCommute(tags, ws[..|ws| - 1], path, v);
    }
  }
}
