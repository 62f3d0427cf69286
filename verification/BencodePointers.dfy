/**
  Pointers into a partly built value, as the decoder of include/bencode.hpp
  keeps them on its stack: a pointer is the way from the root to a node. And
  what is still to be read when the decoder holds such a pointer.
 */
module BencodePointers {
  import opened Bytes
  import opened Bencode

  datatype Hop = Item(i: nat) | Under(key: seq<byte>)

  type Pointer = seq<Hop>

  function Replace(entries: seq<Entry>, key: seq<byte>, value: Data): seq<Entry> {
    if entries == [] then []
    else if entries[0].key == key then [Entry(key, value)] + entries[1..]
    else [entries[0]] + Replace(entries[1..], key, value)
  }

  function Child(d: Data, h: Hop): Option<Data> {
    match h
    case Item(i) => if d.List? && i < |d.items| then Some(d.items[i]) else None
    case Under(key) => if d.Dict? then Lookup(d.entries, key) else None
  }

  function SetChild(d: Data, h: Hop, x: Data): Data
    requires Child(d, h).Some?
  {
    match h
    case Item(i) => List(d.items[i := x])
    case Under(key) => Dict(Replace(d.entries, key, x))
  }

  /** The node that a pointer leads to. */
  function At(d: Data, p: Pointer): Option<Data> {
    if p == [] then Some(d)
    else
      match At(d, p[..|p| - 1])
      case None => None
      case Some(parent) => Child(parent, p[|p| - 1])
  }

  /** The value after the node under a pointer was overwritten. */
  function Put(d: Data, p: Pointer, x: Data): Data
    requires At(d, p).Some?
  {
    if p == [] then x
    else
      var up := p[..|p| - 1];
      Put(d, up, SetChild(At(d, up).value, p[|p| - 1], x))
  }

  lemma {:induction false} ReplaceFind(entries: seq<Entry>, key: seq<byte>, x: Data, y: Data)
    requires Lookup(entries, key).Some?
    ensures Lookup(Replace(entries, key, x), key) == Some(x)
    ensures Replace(Replace(entries, key, x), key, y) == Replace(entries, key, y)
    ensures Replace(entries, key, Lookup(entries, key).value) == entries
  {
    if entries[0].key != key {
      ReplaceFind(entries[1..], key, x, y);
      var rest := Replace(entries[1..], key, x);
      assert ([entries[0]] + rest)[1..] == rest;
    }
    assert entries == [entries[0]] + entries[1..];
  }

  lemma ChildSet(d: Data, h: Hop, x: Data, y: Data)
    requires Child(d, h).Some?
    ensures Child(SetChild(d, h, x), h) == Some(x)
    ensures SetChild(SetChild(d, h, x), h, y) == SetChild(d, h, y)
    ensures SetChild(d, h, Child(d, h).value) == d
  {
    if h.Under? {
      ReplaceFind(d.entries, h.key, x, y);
    }
  }

  /** Reading back what was put, putting twice, and putting what is there. */
  lemma {:induction false} PutLaws(d: Data, p: Pointer, x: Data, y: Data)
    requires At(d, p).Some?
    ensures At(Put(d, p, x), p) == Some(x)
    ensures Put(Put(d, p, x), p, y) == Put(d, p, y)
    ensures Put(d, p, At(d, p).value) == d
    decreases |p|
  {
    if p == [] {
    } else {
      var up, h := p[..|p| - 1], p[|p| - 1];
      var parent := At(d, up).value;
      ChildSet(parent, h, x, y);
      PutLaws(d, up, SetChild(parent, h, x), SetChild(parent, h, y));
    }
  }

  /** Overwriting a child is overwriting its parent. */
  lemma PutChild(d: Data, p: Pointer, h: Hop, x: Data)
    requires At(d, p).Some? && Child(At(d, p).value, h).Some?
    ensures At(d, p + [h]) == Child(At(d, p).value, h)
    ensures Put(d, p + [h], x) == Put(d, p, SetChild(At(d, p).value, h, x))
  {
    assert (p + [h])[..|p|] == p;
  }

  // ----- Storing into a container

  predicate IsContainer(d: Data) {
    d.List? || d.Dict?
  }

  /** Storing into a dictionary fails when the key is taken. */
  predicate CanStore(d: Data, key: seq<byte>) {
    d.List? || (d.Dict? && !HasKey(d.entries, key))
  }

  function Stored(d: Data, key: seq<byte>, x: Data): Data
    requires CanStore(d, key)
  {
    if d.List? then List(d.items + [x]) else Dict(Insert(d.entries, key, x))
  }

  /** Where the stored element is. */
  function StoredHop(d: Data, key: seq<byte>): Hop
    requires IsContainer(d)
  {
    if d.List? then Item(|d.items|) else Under(key)
  }

  lemma {:induction false} InsertFind(entries: seq<Entry>, key: seq<byte>, x: Data, y: Data)
    requires !HasKey(entries, key)
    ensures Lookup(Insert(entries, key, x), key) == Some(x)
    ensures Replace(Insert(entries, key, x), key, y) == Insert(entries, key, y)
  {
    if entries != [] && !Less(key, entries[0].key) {
      assert entries[0].key != key;
      assert !HasKey(entries[1..], key) by {
        assert forall i :: 0 <= i < |entries[1..]| ==> entries[1..][i] == entries[i + 1];
      }
      InsertFind(entries[1..], key, x, y);
      var rest := Insert(entries[1..], key, x);
      assert ([entries[0]] + rest)[1..] == rest;
    } else {
      assert ([Entry(key, x)] + entries)[1..] == entries;
    }
  }

  /** A stored element can be changed in place afterwards. */
  lemma StoredChild(d: Data, key: seq<byte>, x: Data, y: Data)
    requires CanStore(d, key)
    ensures var h := StoredHop(d, key);
            && Child(Stored(d, key, x), h) == Some(x)
            && SetChild(Stored(d, key, x), h, y) == Stored(d, key, y)
  {
    if d.Dict? {
      InsertFind(d.entries, key, x, y);
    }
  }

  // ----- What is still to be read

  /** The rest of a container that is partly read. */
  function ParseRest(s: seq<byte>, p: nat, d: Data): (r: Reading<Data>)
    requires p <= |s|
    ensures r.Accepted? ==> p < r.next <= |s|
  {
    match d
    case List(items) => ParseItems(s, p, items)
    case Dict(entries) => ParseEntries(s, p, entries)
    case _ => Rejected
  }

  /** Reads the rest of the container under `ptr`, then of the one around it, and so on up to the root. */
  function Finish(s: seq<byte>, p: nat, root: Data, ptr: Pointer): Reading<Data>
    requires p <= |s|
    decreases |ptr|
  {
    match At(root, ptr)
    case None => Rejected
    case Some(d) =>
      match ParseRest(s, p, d)
      case Rejected => Rejected
      case Accepted(x, q) =>
        if ptr == [] then Accepted(x, q) else Up(root, ptr, x); Finish(s, q, Put(root, ptr, x), ptr[..|ptr| - 1])
  }

  /** After a node was overwritten, the node above it can still be reached. */
  lemma Up(root: Data, ptr: Pointer, x: Data)
    requires ptr != [] && At(root, ptr).Some?
    ensures At(Put(root, ptr, x), ptr[..|ptr| - 1]) ==
            Some(SetChild(At(root, ptr[..|ptr| - 1]).value, ptr[|ptr| - 1], x))
  {
    var up := ptr[..|ptr| - 1];
    PutLaws(root, up, SetChild(At(root, up).value, ptr[|ptr| - 1], x), x);
  }

  /** The end of a container: what is left is the rest of the one around it. */
  lemma FinishEnd(s: seq<byte>, p: nat, root: Data, ptr: Pointer)
    requires p < |s| && s[p] == END
    requires At(root, ptr).Some? && IsContainer(At(root, ptr).value)
    ensures Finish(s, p, root, ptr) ==
            if ptr == [] then Accepted(root, p + 1) else Finish(s, p + 1, root, ptr[..|ptr| - 1])
  {
    PutLaws(root, ptr, root, root);
  }

  /** Reading one more element `x` of the container, from `p` to `q`. */
  predicate ReadsElement(s: seq<byte>, p: nat, d: Data, key: seq<byte>, from: nat)
    requires p <= |s|
  {
    && IsContainer(d) && p < |s| && s[p] != END
    && from <= |s|
    && (d.List? ==> from == p)
    && (d.Dict? ==> IsDigit(s[p]) && ParseStr(s, p) == Accepted(key, from))
  }

  lemma RestAfterElement(s: seq<byte>, p: nat, d: Data, key: seq<byte>, from: nat)
    requires p <= |s| && ReadsElement(s, p, d, key, from)
    ensures ParseRest(s, p, d) ==
            match Parse(s, from)
            case Rejected => Rejected
            case Accepted(x, q) => if CanStore(d, key) then ParseRest(s, q, Stored(d, key, x)) else Rejected
  {
  }

  /** An element that is read whole, and stored through the pointer. */
  lemma FinishElement(s: seq<byte>, p: nat, root: Data, ptr: Pointer, key: seq<byte>, from: nat)
    requires p <= |s| && At(root, ptr).Some?
    requires ReadsElement(s, p, At(root, ptr).value, key, from)
    ensures Finish(s, p, root, ptr) ==
            match Parse(s, from)
            case Rejected => Rejected
            case Accepted(x, q) =>
              var d := At(root, ptr).value;
              if CanStore(d, key) then Finish(s, q, Put(root, ptr, Stored(d, key, x)), ptr) else Rejected
  {
    var d := At(root, ptr).value;
    RestAfterElement(s, p, d, key, from);
    var r := Parse(s, from);
    if r.Accepted? && CanStore(d, key) {
      var d' := Stored(d, key, r.value);
      PutLaws(root, ptr, d', d');
      var rest := ParseRest(s, r.next, d');
      if rest.Accepted? {
        PutLaws(root, ptr, d', rest.value);
      }
    }
  }

  /** A container that is opened: it is stored empty, and the pointer moves into it. */
  lemma FinishOpened(s: seq<byte>, p: nat, root: Data, ptr: Pointer, key: seq<byte>, from: nat, empty: Data)
    requires p <= |s| && At(root, ptr).Some?
    requires ReadsElement(s, p, At(root, ptr).value, key, from)
    requires from < |s| && ((s[from] == LIST && empty == List([])) || (s[from] == DICT && empty == Dict([])))
    ensures var d := At(root, ptr).value;
            if CanStore(d, key) then
              var root', inner := Put(root, ptr, Stored(d, key, empty)), ptr + [StoredHop(d, key)];
              At(root', inner) == Some(empty) && Finish(s, p, root, ptr) == Finish(s, from + 1, root', inner)
            else Finish(s, p, root, ptr) == Rejected
  {
    var d := At(root, ptr).value;
    FinishElement(s, p, root, ptr, key, from);
    assert Parse(s, from) == ParseRest(s, from + 1, empty);
    if CanStore(d, key) {
      var h, d' := StoredHop(d, key), Stored(d, key, empty);
      var root' := Put(root, ptr, d');
      PutLaws(root, ptr, d', d');
      StoredChild(d, key, empty, empty);
      PutChild(root', ptr, h, empty);
      assert (ptr + [h])[..|ptr|] == ptr;
      var r := Parse(s, from);
      if r.Accepted? {
        StoredChild(d, key, empty, r.value);
        PutChild(root', ptr, h, r.value);
        PutLaws(root, ptr, d', Stored(d, key, r.value));
      }
    }
  }
}
