/**
 The chained hash table (src/table): bucket chains linked through the items themselves, relinked
 in place on resize.
 */
module ChainedTable {
  import opened Bytes

  /** The initial number of buckets. */
  const FIRST_SIZE := 1031

  /** A copied string; the pointer handed out by interning is a reference to one of these. */
  class CString {
    const chars: seq<byte>

    constructor (chars: seq<byte>)
      ensures this.chars == chars
    {
      this.chars := chars;
    }
  }

  class Item {
    const digest: uint64
    const key: CString
    var next: Item?
    /** What the user of the table keeps with the key. */
    var value: int

    constructor (digest: uint64, key: CString)
      ensures this.digest == digest && this.key == key && next == null && value == 0
    {
      this.digest, this.key, this.next, this.value := digest, key, null, 0;
    }
  }

  // ---------------------------------------------------------------------------
  // Chains, over a picture of the `next` fields

  /** The `next` field of every node of some set. */
  type Links = map<Item, Item?>

  ghost function Nth(c: seq<Item>, k: nat): Item? {
    if k < |c| then c[k] else null
  }

  ghost predicate Distinct(c: seq<Item>) {
    forall i, j :: 0 <= i < j < |c| ==> c[i] != c[j]
  }

  /** Following the links from `head` visits exactly c, once each, all items of bucket b, and ends. */
  ghost predicate BucketAt(head: Item?, c: seq<Item>, b: nat, size: nat, links: Links)
    requires size > 0
  {
    && head == Nth(c, 0)
    && Distinct(c)
    && (forall j :: 0 <= j < |c| ==> c[j] in links && c[j].digest % size == b)
    && (forall j :: 0 <= j < |c| ==> links[c[j]] == Nth(c, j + 1))
  }

  /** A bucket array over a set of nodes: each is in the one bucket its digest selects. */
  ghost predicate Buckets(begin: seq<Item?>, chains: seq<seq<Item>>, links: Links) {
    && |begin| == |chains|
    && (forall b :: 0 <= b < |chains| ==> BucketAt(begin[b], chains[b], b, |chains|, links))
    && (forall x :: x in links ==> |chains| > 0 && x in chains[x.digest % |chains|])
  }

  /** Changing one bucket, and links of its own nodes only, leaves a bucket array. */
  lemma OneBucketChanged(begin: seq<Item?>, chains: seq<seq<Item>>, links: Links,
                         b: nat, head: Item?, c: seq<Item>, links': Links)
    requires Buckets(begin, chains, links) && b < |begin|
    requires BucketAt(head, c, b, |begin|, links')
    requires forall x :: x in links && x.digest % |begin| != b ==> x in links' && links'[x] == links[x]
    requires forall x :: x in links' ==> if x.digest % |begin| == b then x in c else x in links
    ensures Buckets(begin[b := head], chains[b := c], links')
  {
    forall i | 0 <= i < |chains| && i != b ensures BucketAt(begin[i], chains[i], i, |chains|, links') {
      var d := chains[i];
      assert BucketAt(begin[i], d, i, |chains|, links);
      assert forall j :: 0 <= j < |d| ==> d[j] in links && d[j].digest % |begin| != b;
    }
  }

  lemma BucketOf(begin: seq<Item?>, chains: seq<seq<Item>>, links: Links, b: nat)
    requires Buckets(begin, chains, links) && b < |begin|
    ensures |chains| == |begin| && BucketAt(begin[b], chains[b], b, |begin|, links)
    ensures forall x :: x in links && x.digest % |begin| == b ==> x in chains[b]
  {
  }

  /** Pushing a new node in front of the bucket its digest selects. */
  lemma BucketsPushed(begin: seq<Item?>, chains: seq<seq<Item>>, links: Links, node: Item)
    requires Buckets(begin, chains, links) && |begin| > 0 && node !in links
    ensures |chains| == |begin|
    ensures var b := node.digest % |begin|;
      Buckets(begin[b := node], chains[b := [node] + chains[b]], links[node := begin[b]])
  {
    hide Buckets;
    var b := node.digest % |begin|;
    BucketOf(begin, chains, links, b);
    OneBucketChanged(begin, chains, links, b, node, [node] + chains[b], links[node := begin[b]]);
  }

  /** Inserting a new node behind the last of the bucket its digest selects. */
  lemma BucketsAppended(begin: seq<Item?>, chains: seq<seq<Item>>, links: Links, node: Item)
    requires Buckets(begin, chains, links) && |begin| > 0 && node !in links
    ensures |chains| == |begin|
    ensures var b := node.digest % |begin|;
      var c := chains[b];
      Buckets(begin[b := if c == [] then node else begin[b]], chains[b := c + [node]], Appended(links, c, node))
  {
    hide Buckets;
    var b := node.digest % |begin|;
    BucketOf(begin, chains, links, b);
    var c := chains[b];
    OneBucketChanged(begin, chains, links, b, if c == [] then node else begin[b], c + [node], Appended(links, c, node));
  }

  ghost function Appended(links: Links, c: seq<Item>, node: Item): Links {
    (if c == [] then links else links[c[|c| - 1] := node])[node := null]
  }

  /** The chain without one item, place by place. */
  lemma WithoutAt(c: seq<Item>, j: nat, k: nat)
    requires j < |c| && k < |c| - 1
    ensures (c[..j] + c[j + 1..])[k] == c[if k < j then k else k + 1]
  {
  }

  /** Each remaining item is followed by the next remaining one. */
  lemma RemovedLink(head: Item?, c: seq<Item>, b: nat, size: nat, links: Links, j: nat, k: nat)
    requires size > 0 && BucketAt(head, c, b, size, links) && j < |c| && k < |c| - 1
    ensures var d, links' := c[..j] + c[j + 1..], Removed(links, c, j);
      d[k] != c[j] && d[k] in links' && links'[d[k]] == Nth(d, k + 1)
  {
    hide BucketAt, Removed;
    WithoutAt(c, j, k);
    if k + 1 < |c| - 1 { WithoutAt(c, j, k + 1); }
    var i := if k < j then k else k + 1;
    AtPlace(head, c, b, size, links, i);
    AtPlace(head, c, b, size, links, j);
    RemovedAt(head, c, b, size, links, j, i);
  }

  lemma AtPlace(head: Item?, c: seq<Item>, b: nat, size: nat, links: Links, i: nat)
    requires size > 0 && BucketAt(head, c, b, size, links) && i < |c|
    ensures c[i] in links && links[c[i]] == Nth(c, i + 1)
  {
  }

  /** Only the predecessor's link changes. */
  lemma RemovedAt(head: Item?, c: seq<Item>, b: nat, size: nat, links: Links, j: nat, i: nat)
    requires size > 0 && BucketAt(head, c, b, size, links) && i < |c| && j < |c| && i != j
    ensures c[i] != c[j] && c[i] in links && c[j] in links && c[i] in Removed(links, c, j)
    ensures Removed(links, c, j)[c[i]] == if i + 1 == j then links[c[j]] else links[c[i]]
  {
  }

  lemma BucketRemoved(head: Item?, c: seq<Item>, b: nat, size: nat, links: Links, j: nat)
    requires size > 0 && BucketAt(head, c, b, size, links) && j < |c|
    ensures BucketAt(if j == 0 then links[c[0]] else head, c[..j] + c[j + 1..], b, size, Removed(links, c, j))
  {
    var d, links' := c[..j] + c[j + 1..], Removed(links, c, j);
    hide Removed;
    forall k | 0 <= k < |d|
      ensures d[k] == c[if k < j then k else k + 1] && d[k] in links' && links'[d[k]] == Nth(d, k + 1)
    {
      WithoutAt(c, j, k);
      RemovedLink(head, c, b, size, links, j, k);
    }
  }

  lemma RemovedCovers(c: seq<Item>, j: nat, x: Item)
    requires j < |c| && x in c && x != c[j]
    ensures x in c[..j] + c[j + 1..]
  {
    var d := c[..j] + c[j + 1..];
    var k :| 0 <= k < |c| && c[k] == x;
    assert d[if k < j then k else k - 1] == x;
  }

  /** Unlinking the item at place j of bucket b, by its predecessor or the array. */
  lemma BucketsRemoved(begin: seq<Item?>, chains: seq<seq<Item>>, links: Links, b: nat, j: nat)
    requires Buckets(begin, chains, links) && b < |begin| == |chains| && j < |chains[b]|
    ensures var c := chains[b];
      && c[j] in links
      && Buckets(begin[b := if j == 0 then links[c[0]] else begin[b]], chains[b := c[..j] + c[j + 1..]],
                 Removed(links, c, j))
  {
    BucketOf(begin, chains, links, b);
    var c := chains[b];
    var d, links' := c[..j] + c[j + 1..], Removed(links, c, j);
    assert c[j] in links && c[j].digest % |begin| == b;
    assert j > 0 ==> c[j - 1] in links && c[j - 1].digest % |begin| == b;
    BucketRemoved(begin[b], c, b, |begin|, links, j);
    hide Buckets, BucketAt;
    forall x | x in links' && x.digest % |begin| == b ensures x in d {
      RemovedCovers(c, j, x);
    }
    OneBucketChanged(begin, chains, links, b, if j == 0 then links[c[0]] else begin[b], d, links');
  }

  ghost function Removed(links: Links, c: seq<Item>, j: nat): Links
    requires j < |c| && c[j] in links
  {
    (if j == 0 then links else links[c[j - 1] := links[c[j]]]) - {c[j]}
  }

  /** An exhausted bucket is an empty chain, and the head of any other is a node. */
  lemma HeadOf(begin: seq<Item?>, chains: seq<seq<Item>>, links: Links, b: nat)
    requires Buckets(begin, chains, links) && b < |begin|
    ensures |chains| == |begin|
    ensures begin[b] == null <==> chains[b] == []
    ensures begin[b] != null ==> begin[b] in links
  {
    BucketOf(begin, chains, links, b);
  }

  lemma FirstOf(begin: seq<Item?>, chains: seq<seq<Item>>, links: Links, b: nat)
    requires Buckets(begin, chains, links) && b < |begin| && begin[b] != null
    ensures b < |chains| && chains[b] != [] && chains[b][0] == begin[b]
  {
    BucketOf(begin, chains, links, b);
  }

  lemma AllEmpty(begin: seq<Item?>, chains: seq<seq<Item>>, links: Links)
    requires Buckets(begin, chains, links) && forall b :: 0 <= b < |chains| ==> chains[b] == []
    ensures links == map[]
  {
    assert forall x :: x in links ==> x in chains[x.digest % |chains|];
  }

  lemma NothingYet(size: nat)
    ensures Buckets(seq(size, i => null), seq(size, i => []), map[])
  {
  }

  // ---------------------------------------------------------------------------
  // The code

  /** The picture is true of the heap. */
  ghost predicate Pictures(links: Links)
    reads links.Keys
  {
    forall x :: x in links ==> x.next == links[x]
  }

  /**
   The body of `table_resize`: the head of an old bucket is unlinked and pushed in front of its
   new bucket. Two arrays of chains share out one set of nodes; the node changes sides.
   */
  method MoveHead(from: array<Item?>, b: nat, to: array<Item?>, node: Item,
                  ghost left: seq<seq<Item>>, ghost todo: Links,
                  ghost made: seq<seq<Item>>, ghost moved: Links)
    requires from != to && to.Length > 0 && b < from.Length && from[b] == node
    requires Buckets(from[..], left, todo) && Pictures(todo)
    requires Buckets(to[..], made, moved) && Pictures(moved) && todo.Keys !! moved.Keys
    modifies from, to, node`next
    ensures left[b] != [] && node in todo
    ensures var nb := node.digest % to.Length;
      var moved' := moved[node := old(to[nb])];
      && Buckets(from[..], left[b := left[b][1..]], todo - {node}) && Pictures(todo - {node})
      && Buckets(to[..], made[nb := [node] + made[nb]], moved') && Pictures(moved')
  {
    hide Buckets;
    HeadOf(from[..], left, todo, b);
    BucketsRemoved(from[..], left, todo, b, 0);
    assert left[b][0] == node by { FirstOf(from[..], left, todo, b); }
    assert left[b][..0] + left[b][1..] == left[b][1..];
    BucketsPushed(to[..], made, moved, node);
    assert |left| == |from[..]| && |made| == |to[..]| by {
      Lengths(from[..], left, todo);
      Lengths(to[..], made, moved);
    }
    ghost var from', to' := from[..], to[..];
    var next := node.next;
    var nb := node.digest % to.Length;
    node.next := to[nb];
    to[nb] := node;
    from[b] := next;
    assert from[..] == from'[b := next];
    assert to[..] == to'[nb := node];
  }

  lemma Lengths(begin: seq<Item?>, chains: seq<seq<Item>>, links: Links)
    requires Buckets(begin, chains, links)
    ensures |begin| == |chains|
  {
  }

  /** The loop over one old bucket in `table_resize`. */
  method Drain(from: array<Item?>, b: nat, to: array<Item?>,
               ghost left: seq<seq<Item>>, ghost todo: Links,
               ghost made: seq<seq<Item>>, ghost moved: Links)
    returns (ghost left': seq<seq<Item>>, ghost todo': Links, ghost made': seq<seq<Item>>, ghost moved': Links)
    requires from != to && to.Length > 0 && b < from.Length
    requires Buckets(from[..], left, todo) && Pictures(todo)
    requires Buckets(to[..], made, moved) && Pictures(moved) && todo.Keys !! moved.Keys
    modifies from, to, todo.Keys`next
    ensures Buckets(from[..], left', todo') && Pictures(todo')
    ensures Buckets(to[..], made', moved') && Pictures(moved')
    ensures todo'.Keys !! moved'.Keys && todo'.Keys + moved'.Keys == todo.Keys + moved.Keys
    ensures todo'.Keys <= todo.Keys
    ensures b < |left| && left' == left[b := []]
  {
    hide Buckets;
    left', todo', made', moved' := left, todo, made, moved;
    HeadOf(from[..], left, todo, b);
    while from[b] != null
      invariant Buckets(from[..], left', todo') && Pictures(todo')
      invariant Buckets(to[..], made', moved') && Pictures(moved')
      invariant todo'.Keys !! moved'.Keys && todo'.Keys + moved'.Keys == todo.Keys + moved.Keys
      invariant todo'.Keys <= todo.Keys
      invariant |left'| == |left| && left' == left[b := left'[b]]
      invariant from[b] == null <==> left'[b] == []
      decreases |left'[b]|
    {
      var node := from[b];
      ghost var nb := node.digest % to.Length;
      HeadOf(from[..], left', todo', b);
      Lengths(to[..], made', moved');
      ghost var head := to[nb];
      MoveHead(from, b, to, node, left', todo', made', moved');
      left', todo' := left'[b := left'[b][1..]], todo' - {node};
      made', moved' := made'[nb := [node] + made'[nb]], moved'[node := head];
      HeadOf(from[..], left', todo', b);
    }
  }

  /** The loop over the old array in `table_resize`. */
  method MoveAll(from: array<Item?>, to: array<Item?>, ghost chains: seq<seq<Item>>, ghost links: Links)
    returns (ghost made: seq<seq<Item>>, ghost moved: Links)
    requires from != to && to.Length > 0
    requires Buckets(from[..], chains, links) && Pictures(links)
    requires Buckets(to[..], seq(to.Length, i => []), map[])
    modifies from, to, links.Keys`next
    ensures Buckets(to[..], made, moved) && Pictures(moved) && moved.Keys == links.Keys
  {
    hide Buckets;
    ghost var left, todo := chains, links;
    made, moved := seq(to.Length, i => []), map[];
    Lengths(from[..], left, todo);
    var b := 0;
    while b < from.Length
      invariant 0 <= b <= from.Length == |left|
      invariant Buckets(from[..], left, todo) && Pictures(todo)
      invariant Buckets(to[..], made, moved) && Pictures(moved)
      invariant todo.Keys !! moved.Keys && todo.Keys + moved.Keys == links.Keys
      invariant forall i :: 0 <= i < b ==> left[i] == []
    {
      left, todo, made, moved := Drain(from, b, to, left, todo, made, moved);
      b := b + 1;
    }
    AllEmpty(from[..], left, todo);
  }

  /**
   The number of items times 2.71828, computed in double precision and cut off: whichever way the
   factors and the product are rounded, it lies between these two.
   */
  ghost predicate Scales(scaled: nat -> nat) {
    forall n :: n > 0 ==> 271_827 * n / 100_000 <= scaled(n) <= 271_829 * n / 100_000
  }

  lemma ExactProductScales()
    ensures Scales(n => n * 271_828 / 100_000)
  {
  }

  ghost predicate Hashed(hash: seq<byte> -> uint64, items: set<Item>) {
    forall x :: x in items ==> x.digest == hash(x.key.chars)
  }

  ghost predicate UniqueKeys(items: set<Item>) {
    forall x, y :: x in items && y in items && x.key.chars == y.key.chars ==> x == y
  }

  ghost function KeyMap(items: set<Item>): map<seq<byte>, Item>
    requires UniqueKeys(items)
  {
    map x | x in items :: x.key.chars := x
  }

  lemma KeyPresent(items: set<Item>, item: Item)
    requires UniqueKeys(items) && item in items
    ensures item.key.chars in KeyMap(items) && KeyMap(items)[item.key.chars] == item
  {
  }

  lemma KeyAdded(items: set<Item>, item: Item)
    requires UniqueKeys(items) && forall x :: x in items ==> x.key.chars != item.key.chars
    ensures UniqueKeys(items + {item})
    ensures item.key.chars !in KeyMap(items)
    ensures KeyMap(items + {item}) == KeyMap(items)[item.key.chars := item]
  {
  }

  lemma CountAdded(hash: seq<byte> -> uint64, items: set<Item>, item: Item)
    requires Hashed(hash, items) && item !in items && item.digest == hash(item.key.chars)
    ensures Hashed(hash, items + {item}) && |items + {item}| == |items| + 1
  {
  }

  lemma KeyRemoved(items: set<Item>, item: Item)
    requires UniqueKeys(items) && item in items
    ensures UniqueKeys(items - {item}) && |items - {item}| <= |items|
    ensures KeyMap(items - {item}) == KeyMap(items) - {item.key.chars}
  {
  }

  /** None of the first j items has the key. */
  predicate Misses(c: seq<Item>, j: nat, key: seq<byte>)
    requires j <= |c|
  {
    forall k :: 0 <= k < j ==> c[k].key.chars != key
  }

  lemma NothingMissed(c: seq<Item>, key: seq<byte>)
    ensures Misses(c, 0, key)
  {
  }

  lemma MissesOneMore(c: seq<Item>, j: nat, key: seq<byte>)
    requires j < |c| && Misses(c, j, key) && c[j].key.chars != key
    ensures Misses(c, j + 1, key)
  {
  }

  /** What a walk along the chain ends with: the item with the key and its predecessor, or the end. */
  ghost predicate Found(c: seq<Item>, key: seq<byte>, previous: Item?, item: Item?, j: nat) {
    && j <= |c| && item == Nth(c, j)
    && previous == (if j == 0 then null else c[j - 1])
    && (item != null ==> item.key.chars == key)
    && (item == null ==> forall x :: x in c ==> x.key.chars != key)
  }

  lemma FoundOrNot(c: seq<Item>, key: seq<byte>, previous: Item?, item: Item?, j: nat)
    requires j <= |c| && item == Nth(c, j) && previous == if j == 0 then null else c[j - 1]
    requires Misses(c, j, key) && (item != null ==> item.key.chars == key)
    ensures Found(c, key, previous, item, j)
  {
  }

  lemma KeyAbsent(items: set<Item>, key: seq<byte>)
    requires UniqueKeys(items) && forall x :: x in items ==> x.key.chars != key
    ensures key !in KeyMap(items) && KeyMap(items) - {key} == KeyMap(items)
  {
  }

  class Table {
    const hash: seq<byte> -> uint64
    const scaled: nat -> nat
    var begin: array<Item?>
    var itemCount: nat
    ghost var chains: seq<seq<Item>>
    ghost var links: Links

    /** Links and buckets agree with the heap; digests are right, keys unique, counts bounded. */
    ghost predicate Valid()
      reads this, begin, links.Keys
    {
      && Buckets(begin[..], chains, links)
      && Pictures(links)
      && Hashed(hash, links.Keys)
      && Scales(scaled)
      && UniqueKeys(links.Keys)
      && |links.Keys| <= itemCount
    }

    /** The table as a map from keys to items. */
    ghost function Contents(): map<seq<byte>, Item>
      requires UniqueKeys(links.Keys)
      reads this
    {
      KeyMap(links.Keys)
    }

    /** The zero-initialized table: no buckets at all. */
    constructor (hash: seq<byte> -> uint64, scaled: nat -> nat)
      requires Scales(scaled)
      ensures Valid() && fresh(begin) && links == map[] && itemCount == 0
      ensures this.hash == hash && this.scaled == scaled
    {
      this.hash, this.scaled := hash, scaled;
      begin := new Item?[0];
      itemCount, chains, links := 0, [], map[];
    }

    /** `table_resize`: all nodes move to the new array; none is copied, lost or repeated. */
    method Resize(newSize: nat)
      requires Valid() && newSize > 0
      modifies this`begin, this`chains, this`links, begin, links.Keys`next
      ensures Valid() && fresh(begin) && begin.Length == newSize
      ensures links.Keys == old(links.Keys) && Contents() == old(Contents())
    {
      hide Buckets, KeyMap, UniqueKeys, Hashed;
      var newTable := new Item?[newSize](i => null);
      assert newTable[..] == seq(newSize, i => null);
      NothingYet(newSize);
      ghost var made, moved := MoveAll(begin, newTable, chains, links);
      begin, chains, links := newTable, made, moved;
    }

    /** The pointers of a bucket, as they are in the heap, visit its chain and end. */
    lemma ChainOf(b: nat)
      requires Valid() && b < begin.Length
      ensures |chains| == begin.Length && begin[b] == Nth(chains[b], 0)
      ensures Linked(chains[b])
    {
      BucketOf(begin[..], chains, links, b);
      hide Buckets, UniqueKeys, Hashed;
    }

    /** Each item of the chain points to the next one, and the last to nothing. */
    ghost predicate Linked(c: seq<Item>)
      reads this, links.Keys
    {
      forall k :: 0 <= k < |c| ==> c[k] in links && c[k].next == Nth(c, k + 1)
    }

    lemma LinkedAt(c: seq<Item>, k: nat)
      requires Linked(c) && Nth(c, k) != null
      ensures k < |c| && c[k] == Nth(c, k) && c[k] in links && c[k].next == Nth(c, k + 1)
    {
    }

    /** Every item is found in the bucket its key's digest selects, at one place of its chain. */
    lemma ItemInItsBucket(x: Item)
      requires Valid() && x in links
      ensures begin.Length > 0 && |chains| == begin.Length && x.digest == hash(x.key.chars)
      ensures var b := hash(x.key.chars) % begin.Length;
        && Linked(chains[b]) && begin[b] == Nth(chains[b], 0)
        && exists k :: 0 <= k < |chains[b]| && chains[b][k] == x
             && forall j :: 0 <= j < |chains[b]| && j != k ==> chains[b][j] != x
    {
      assert begin.Length > 0 by { SomeBucket(x); }
      var b := hash(x.key.chars) % begin.Length;
      ChainOf(b);
      BucketOf(begin[..], chains, links, b);
      hide Buckets;
      var k :| 0 <= k < |chains[b]| && chains[b][k] == x;
      assert Distinct(chains[b]);
    }

    lemma SomeBucket(x: Item)
      requires Valid() && x in links
      ensures begin.Length > 0
    {
    }

    /**
     `table_match`: walk a bucket until the key is found or the chain ends. The C code's pointer
     to the pointer to the item is the predecessor, null standing for the array slot.
     */
    method Match(b: nat, key: seq<byte>) returns (previous: Item?, item: Item?, ghost j: nat)
      requires Valid() && b < begin.Length
      ensures |chains| == begin.Length && Found(chains[b], key, previous, item, j)
      ensures item != null ==> item in links
    {
      hide Valid, Linked, Nth, Misses, Found;
      ChainOf(b);
      NothingMissed(chains[b], key);
      ghost var c := chains[b];
      previous, item, j := null, begin[b], 0;
      while item != null
        invariant |chains| == begin.Length && c == chains[b] && Linked(c)
        invariant j <= |c| && item == Nth(c, j)
        invariant previous == if j == 0 then null else c[j - 1]
        invariant Misses(c, j, key)
        decreases |c| - j
      {
        LinkedAt(c, j);
        if item.key.chars == key { break; }
        MissesOneMore(c, j, key);
        previous, item, j := item, item.next, j + 1;
      }
      FoundOrNot(c, key, previous, item, j);
      if item != null { LinkedAt(c, j); }
    }

    /** Whether the next inclusion grows the table first: at four fifths of the buckets. */
    predicate Full()
      reads this
    {
      100 * itemCount >= 80 * begin.Length
    }

    function GrownSize(): nat
      reads this
    {
      if itemCount > 0 then scaled(itemCount) else FIRST_SIZE
    }

    /** Growing is enough: afterwards the load is below four fifths. */
    lemma GrowthSuffices()
      requires Scales(scaled)
      ensures GrownSize() > 0 && 100 * itemCount < 80 * GrownSize()
    {
      if itemCount > 0 {
        assert 271_827 * itemCount / 100_000 <= scaled(itemCount);
      }
    }

    /** The first step of an inclusion. */
    method Grow()
      requires Valid()
      modifies this`begin, this`chains, this`links, begin, links.Keys`next
      ensures Valid() && (begin == old(begin) || fresh(begin))
      ensures links.Keys == old(links.Keys)
      ensures begin.Length > 0 && 100 * itemCount < 80 * begin.Length
      ensures begin.Length == if 100 * itemCount < 80 * old(begin.Length) then old(begin.Length)
                              else if itemCount == 0 then 1031 else scaled(itemCount)
    {
      hide Buckets, KeyMap, UniqueKeys, Hashed;
      if Full() {
        GrowthSuffices();
        Resize(GrownSize());
      }
    }

    /** `_table_string_include`: the item with this key, made if there is none. */
    method Include(key: seq<byte>) returns (item: Item)
      requires Valid()
      modifies this, begin, links.Keys`next
      ensures Valid() && (begin == old(begin) || fresh(begin)) && fresh(links.Keys - old(links.Keys))
      ensures item.key.chars == key
      ensures Contents() == old(Contents())[key := item]
      ensures key in old(Contents()) ==> item == old(Contents())[key]
      ensures key !in old(Contents()) ==> fresh(item) && fresh(item.key)
      ensures itemCount == old(itemCount) + if key in old(Contents()) then 0 else 1
      ensures begin.Length > 0 && 100 * old(itemCount) < 80 * begin.Length
      ensures begin.Length == if 100 * old(itemCount) < 80 * old(begin.Length) then old(begin.Length)
                              else if old(itemCount) == 0 then 1031 else scaled(old(itemCount))
    {
      hide Buckets, Pictures, KeyMap, UniqueKeys, Hashed;
      Grow();
      item := FindOrInsert(key);
    }

    /** The rest of an inclusion. */
    method FindOrInsert(key: seq<byte>) returns (item: Item)
      requires Valid() && begin.Length > 0
      modifies this`chains, this`links, this`itemCount, begin, links.Keys`next
      ensures Valid() && fresh(links.Keys - old(links.Keys))
      ensures item.key.chars == key
      ensures Contents() == old(Contents())[key := item]
      ensures key in old(Contents()) ==> item == old(Contents())[key]
      ensures key !in old(Contents()) ==> fresh(item) && fresh(item.key)
      ensures itemCount == old(itemCount) + if key in old(Contents()) then 0 else 1
    {
      hide Buckets, Pictures, KeyMap, UniqueKeys, Hashed;
      var b := hash(key) % begin.Length;
      var previous, found, j := Match(b, key);
      ghost var items := links.Keys;
      if found != null {
        KeyPresent(items, found);
        assert KeyMap(items)[key := found] == KeyMap(items);
        return found;
      }
      AbsentFromBucket(b, key);
      KeyAbsent(items, key);
      item := Insert(b, previous, key);
    }

    /** A key that is not in its bucket is nowhere. */
    lemma AbsentFromBucket(b: nat, key: seq<byte>)
      requires Valid() && begin.Length > 0 && b == hash(key) % begin.Length
      requires |chains| == begin.Length && forall x :: x in chains[b] ==> x.key.chars != key
      ensures forall x :: x in links ==> x.key.chars != key
    {
      BucketOf(begin[..], chains, links, b);
    }

    /** `table_insert_size_into`: a new item at the end of its bucket. */
    method Insert(b: nat, previous: Item?, key: seq<byte>) returns (item: Item)
      requires Valid() && begin.Length > 0 && b == hash(key) % begin.Length && |chains| == begin.Length
      requires previous == if chains[b] == [] then null else chains[b][|chains[b]| - 1]
      requires forall x :: x in links ==> x.key.chars != key
      modifies this`chains, this`links, this`itemCount, begin, links.Keys`next
      ensures Valid() && itemCount == old(itemCount) + 1 && links.Keys == old(links.Keys) + {item}
      ensures fresh(item) && fresh(item.key) && item.key.chars == key
      ensures Contents() == old(Contents())[key := item]
    {
      hide Buckets, Pictures, KeyMap, UniqueKeys, Hashed;
      var copy := new CString(key);
      item := new Item(hash(key), copy);
      AttachNew(b, previous, item);
    }

    method AttachNew(b: nat, previous: Item?, item: Item)
      requires Valid() && |chains| == begin.Length > 0 && b == item.digest % begin.Length
      requires previous == if chains[b] == [] then null else chains[b][|chains[b]| - 1]
      requires item !in links && item.next == null && item.digest == hash(item.key.chars)
      requires forall x :: x in links ==> x.key.chars != item.key.chars
      modifies this`chains, this`links, this`itemCount, begin, links.Keys`next
      ensures Valid() && itemCount == old(itemCount) + 1 && links.Keys == old(links.Keys) + {item}
      ensures Contents() == old(Contents())[item.key.chars := item]
    {
      hide Buckets, KeyMap, UniqueKeys, Hashed;
      ghost var items := links.Keys;
      KeyAdded(items, item);
      CountAdded(hash, items, item);
      hide Pictures;
      Attach(b, previous, item);
      itemCount := itemCount + 1;
    }

    method Attach(b: nat, previous: Item?, item: Item)
      requires |chains| == begin.Length > 0 && b == item.digest % begin.Length
      requires Buckets(begin[..], chains, links) && Pictures(links)
      requires previous == if chains[b] == [] then null else chains[b][|chains[b]| - 1]
      requires item !in links && item.next == null
      modifies this`chains, this`links, begin, links.Keys`next
      ensures Buckets(begin[..], chains, links) && Pictures(links)
      ensures links.Keys == old(links.Keys) + {item}
    {
      hide Buckets;
      BucketsAppended(begin[..], chains, links, item);
      LastIsNode(begin[..], chains, links, b);
      ghost var c, before := chains[b], begin[..];
      if previous == null {
        begin[b] := item;
      } else {
        previous.next := item;
      }
      assert begin[..] == before[b := if c == [] then item else before[b]];
      chains, links := chains[b := c + [item]], Appended(links, c, item);
    }

    /** `table_delete` on the item found for a key; the inserted count is left as it is. */
    method Delete(key: seq<byte>) returns (deleted: bool)
      requires Valid() && begin.Length > 0
      modifies this`chains, this`links, begin, links.Keys`next
      ensures Valid()
      ensures deleted == (key in old(Contents()))
      ensures Contents() == old(Contents()) - {key}
    {
      hide Buckets, KeyMap, UniqueKeys;
      var b := hash(key) % begin.Length;
      var previous, item, j := Match(b, key);
      ghost var items := links.Keys;
      if item == null {
        AbsentFromBucket(b, key);
        KeyAbsent(items, key);
        return false;
      }
      KeyPresent(items, item);
      KeyRemoved(items, item);
      Unlink(b, previous, item, j);
      return true;
    }

    method Unlink(b: nat, previous: Item?, item: Item, ghost j: nat)
      requires Valid() && b < begin.Length == |chains| && j < |chains[b]| && item == chains[b][j]
      requires previous == if j == 0 then null else chains[b][j - 1]
      modifies this`chains, this`links, begin, links.Keys`next
      ensures Buckets(begin[..], chains, links) && Pictures(links)
      ensures links.Keys == old(links.Keys) - {item} && item in old(links)
    {
      hide Buckets;
      BucketsRemoved(begin[..], chains, links, b, j);
      PreviousIsNode(begin[..], chains, links, b, j);
      ghost var c, before := chains[b], begin[..];
      if previous == null {
        begin[b] := item.next;
      } else {
        previous.next := item.next;
      }
      assert begin[..] == before[b := if j == 0 then links[c[0]] else before[b]];
      chains, links := chains[b := c[..j] + c[j + 1..]], Removed(links, c, j);
    }
  }

  lemma LastIsNode(begin: seq<Item?>, chains: seq<seq<Item>>, links: Links, b: nat)
    requires Buckets(begin, chains, links) && b < |begin| == |chains|
    ensures chains[b] != [] ==> chains[b][|chains[b]| - 1] in links
  {
    BucketOf(begin, chains, links, b);
  }

  lemma PreviousIsNode(begin: seq<Item?>, chains: seq<seq<Item>>, links: Links, b: nat, j: nat)
    requires Buckets(begin, chains, links) && b < |begin| == |chains| && j < |chains[b]|
    ensures chains[b][j] in links
    ensures j > 0 ==> chains[b][j - 1] in links && chains[b][j - 1] != chains[b][j]
  {
    BucketOf(begin, chains, links, b);
  }
}
