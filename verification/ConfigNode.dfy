/** One node of a config document: a scalar, an array, or an object keeping its entries in order. */
module ConfigNode {
  import opened Common

  datatype Node =
    | Null
    | Bool(b: bool)
    | Int(i: int)
    | Real(r: real)
    | Str(s: string)
    | Arr(items: seq<Node>)
    | Obj(entries: seq<Pair>)

  datatype Pair = Pair(key: string, value: Node)

  /** One step down a document: into an object by key, into an array by position. */
  datatype Step = Key(key: string) | Index(i: nat)

  const EMPTY_OBJECT := Obj([])

  /** The entries of an object; none for every other form. */
  function Entries(n: Node): seq<Pair> {
    if n.Obj? then n.entries else []
  }

  /** The value of the first entry under `key`. */
  function Lookup(entries: seq<Pair>, key: string): (r: Option<Node>)
    ensures r.Some? <==> exists i :: 0 <= i < |entries| && entries[i].key == key
    ensures r.Some? ==> exists i :: 0 <= i < |entries| && entries[i] == Pair(key, r.value)
  {
    if entries == [] then None
    else if entries[0].key == key then
      assert entries[0] == Pair(key, entries[0].value);
      Some(entries[0].value)
    else
      var r := Lookup(entries[1..], key);
      assert forall i | 0 <= i < |entries[1..]| :: entries[1..][i] == entries[i + 1];
      r
  }

  function Find(n: Node, key: string): Option<Node> {
    Lookup(Entries(n), key)
  }

  /** Assignment under `key`: the first entry of that name is overwritten, a new one goes last. */
  function PutEntry(entries: seq<Pair>, key: string, value: Node): seq<Pair> {
    if entries == [] then [Pair(key, value)]
    else if entries[0].key == key then [Pair(key, value)] + entries[1..]
    else [entries[0]] + PutEntry(entries[1..], key, value)
  }

  /** node[key] = value on an object; a null node becomes an object first. */
  function Put(n: Node, key: string, value: Node): Node
    requires n.Obj? || n.Null?
  {
    Obj(PutEntry(Entries(n), key, value))
  }

  function IndexOf(entries: seq<Pair>, key: string): (r: Option<nat>)
    ensures r.Some? ==> r.value < |entries| && entries[r.value].key == key
    ensures r.Some? <==> Lookup(entries, key).Some?
    ensures r.Some? ==> Lookup(entries, key) == Some(entries[r.value].value)
  {
    if entries == [] then None
    else if entries[0].key == key then Some(0)
    else
      var r := IndexOf(entries[1..], key);
      if r.Some? then Some(r.value + 1) else None
  }

  /** Keys are unique in every object of the tree. */
  ghost predicate UniqueKeys(n: Node) {
    || (!n.Arr? && !n.Obj?)
    || (n.Arr? && forall i | 0 <= i < |n.items| :: UniqueKeys(n.items[i]))
    || (n.Obj? && DistinctKeys(n.entries) && forall i | 0 <= i < |n.entries| :: UniqueKeys(n.entries[i].value))
  }

  predicate DistinctKeys(entries: seq<Pair>) {
    forall i, j | 0 <= i < j < |entries| :: entries[i].key != entries[j].key
  }

  lemma {:induction false} LookupAt(entries: seq<Pair>, i: nat)
    requires DistinctKeys(entries) && i < |entries|
    ensures Lookup(entries, entries[i].key) == Some(entries[i].value)
  {
    if i > 0 {
      LookupAt(entries[1..], i - 1);
    }
  }

  lemma {:induction false} LookupPut(entries: seq<Pair>, key: string, value: Node, k: string)
    ensures Lookup(PutEntry(entries, key, value), k) == if k == key then Some(value) else Lookup(entries, k)
  {
    if entries != [] && entries[0].key != key {
      LookupPut(entries[1..], key, value, k);
      assert PutEntry(entries, key, value)[1..] == PutEntry(entries[1..], key, value);
    }
  }

  /** Assigning what is already there changes nothing. */
  lemma {:induction false} PutSame(entries: seq<Pair>, key: string, value: Node)
    requires Lookup(entries, key) == Some(value)
    ensures PutEntry(entries, key, value) == entries
  {
    if entries[0].key != key {
      PutSame(entries[1..], key, value);
    }
  }

  /** A new key goes last. */
  lemma {:induction false} PutNew(entries: seq<Pair>, key: string, value: Node)
    requires Lookup(entries, key) == None
    ensures PutEntry(entries, key, value) == entries + [Pair(key, value)]
  {
    if entries != [] {
      PutNew(entries[1..], key, value);
    }
  }

  /** Overwriting keeps every key in its place. */
  lemma {:induction false} PutKeys(entries: seq<Pair>, key: string, value: Node)
    requires DistinctKeys(entries)
    ensures DistinctKeys(PutEntry(entries, key, value))
    ensures forall i | 0 <= i < |PutEntry(entries, key, value)| ::
              || PutEntry(entries, key, value)[i].key == key
              || (i < |entries| && PutEntry(entries, key, value)[i] == entries[i])
  {
    if entries != [] && entries[0].key != key {
      PutKeys(entries[1..], key, value);
      var rest := PutEntry(entries[1..], key, value);
      assert forall i | 0 <= i < |rest| :: rest[i].key != entries[0].key;
    }
  }

  /** Equal up to the order of entries, in every object of the two trees. */
  ghost predicate Same(a: Node, b: Node) {
    match a
    case Arr(items) => b.Arr? && |b.items| == |items| && forall i | 0 <= i < |items| :: Same(items[i], b.items[i])
    case Obj(entries) =>
      && b.Obj?
      && (forall i | 0 <= i < |entries| ::
            Find(b, entries[i].key).Some? && Same(entries[i].value, Find(b, entries[i].key).value))
      && (forall k :: Find(b, k).Some? ==> Find(a, k).Some?)
    case _ => a == b
  }
}
