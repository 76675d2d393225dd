/** String interning (src/immutable/immutable.c): one shared copy of every distinct string. */
module Immutable {
  import opened Bytes
  import opened ChainedTable

  /** The copies a table holds, by content. */
  ghost function Copies(contents: map<seq<byte>, Item>): map<seq<byte>, CString> {
    map s | s in contents :: contents[s].key
  }

  lemma CopiesUpdated(contents: map<seq<byte>, Item>, s: seq<byte>, item: Item)
    ensures Copies(contents[s := item]) == Copies(contents)[s := item.key]
    ensures s in contents ==> Copies(contents)[s] == contents[s].key
    ensures s in Copies(contents) <==> s in contents
  {
  }

  /** What a run of calls returned is what the pool holds. */
  ghost predicate Recorded(inputs: seq<seq<byte>>, copies: seq<CString>, pool: map<seq<byte>, CString>) {
    && |inputs| == |copies|
    && forall k :: 0 <= k < |inputs| ==>
         inputs[k] in pool && pool[inputs[k]] == copies[k] && copies[k].chars == inputs[k]
  }

  ghost predicate Extends(before: map<seq<byte>, CString>, after: map<seq<byte>, CString>) {
    forall s :: s in before ==> s in after && after[s] == before[s]
  }

  lemma RecordOne(inputs: seq<seq<byte>>, copies: seq<CString>, pool: map<seq<byte>, CString>, s: seq<byte>,
                  copy: CString)
    requires Recorded(inputs, copies, pool) && copy.chars == s && (s in pool ==> pool[s] == copy)
    ensures Recorded(inputs + [s], copies + [copy], pool[s := copy]) && Extends(pool, pool[s := copy])
  {
  }

  lemma ExtendsTransitive(a: map<seq<byte>, CString>, b: map<seq<byte>, CString>, c: map<seq<byte>, CString>)
    requires Extends(a, b) && Extends(b, c)
    ensures Extends(a, c)
  {
  }

  class Namespace {
    const table: Table

    constructor (hash: seq<byte> -> uint64, scaled: nat -> nat)
      requires Scales(scaled)
      ensures table.Valid() && fresh(table) && fresh(table.begin) && table.links == map[]
    {
      table := new Table(hash, scaled);
    }

    ghost function Pool(): map<seq<byte>, CString>
      requires table.Valid()
      reads table, table.begin, table.links.Keys
    {
      Copies(table.Contents())
    }

    /** `immutable_string`: the copy kept for this content, made on first use and kept for good. */
    method ImmutableString(input: seq<byte>) returns (copy: CString)
      requires table.Valid()
      modifies table, table.begin, table.links.Keys`next
      ensures table.Valid()
      ensures table.begin == old(table.begin) || fresh(table.begin)
      ensures fresh(table.links.Keys - old(table.links.Keys))
      ensures copy.chars == input
      ensures Pool() == old(Pool())[input := copy]
      ensures if input in old(Pool()) then copy == old(Pool())[input] else fresh(copy)
    {
      hide Buckets, Pictures, KeyMap, UniqueKeys, Hashed, Copies;
      ghost var contents := table.Contents();
      var item := table.Include(input);
      copy := item.key;
      CopiesUpdated(contents, input, item);
    }

    /**
     Any sequence of calls, from any earlier state, with any number of resizes in between: two
     returned pointers are the same object exactly when their inputs were equal.
     */
    method ImmutableStrings(inputs: seq<seq<byte>>) returns (copies: seq<CString>)
      requires table.Valid()
      modifies table, table.begin, table.links.Keys`next
      ensures table.Valid() && |copies| == |inputs|
      ensures forall i :: 0 <= i < |inputs| ==> copies[i].chars == inputs[i]
      ensures forall i, j :: 0 <= i < |inputs| && 0 <= j < |inputs| ==>
                (copies[i] == copies[j] <==> inputs[i] == inputs[j])
      ensures Recorded(inputs, copies, Pool()) && Extends(old(Pool()), Pool())
    {
      hide Table.Valid, Pool, Recorded, Extends;
      copies := [];
      ghost var before, pool := Pool(), Pool();
      assert Recorded([], [], pool) && Extends(before, pool) by { NothingRecorded(pool); }
      assert inputs[..0] == [];
      for i := 0 to |inputs|
        invariant table.Valid() && Pool() == pool
        invariant table.begin == old(table.begin) || fresh(table.begin)
        invariant fresh(table.links.Keys - old(table.links.Keys))
        invariant Recorded(inputs[..i], copies, pool) && Extends(before, pool)
      {
        var copy := ImmutableString(inputs[i]);
        RecordOne(inputs[..i], copies, pool, inputs[i], copy);
        ExtendsTransitive(before, pool, Pool());
        assert inputs[..i + 1] == inputs[..i] + [inputs[i]];
        copies, pool := copies + [copy], Pool();
      }
      assert inputs[..|inputs|] == inputs;
      SameObjectIffEqual(inputs, copies, pool);
    }
  }

  lemma NothingRecorded(pool: map<seq<byte>, CString>)
    ensures Recorded([], [], pool) && Extends(pool, pool)
  {
  }

  lemma SameObjectIffEqual(inputs: seq<seq<byte>>, copies: seq<CString>, pool: map<seq<byte>, CString>)
    requires Recorded(inputs, copies, pool)
    ensures |copies| == |inputs|
    ensures forall i :: 0 <= i < |inputs| ==> copies[i].chars == inputs[i]
    ensures forall i, j :: 0 <= i < |inputs| && 0 <= j < |inputs| ==>
              (copies[i] == copies[j] <==> inputs[i] == inputs[j])
  {
  }
}
