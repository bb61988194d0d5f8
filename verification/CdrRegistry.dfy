/** The runtime registry of CdrRegistry.h, and its generated population. */
module CdrRegistry {
  import opened Results
  import opened Accessors
  import opened Fnv

  class CdrRegistry {
    var table: map<Name, Entry>
    var tagTable: map<Tag, Entry>
    var tagNameTable: map<Tag, Name>

    constructor ()
      ensures table == map[] && tagTable == map[] && tagNameTable == map[]
      ensures Valid()
    {
      table := map[];
      tagTable := map[];
      tagNameTable := map[];
    }

    /** Every registered name is reachable by its tag, and every tag belongs to a registered name. */
    ghost predicate Valid()
      reads this
    {
      && (forall n :: n in table ==> Hash(n) in tagTable && tagTable[Hash(n)] == table[n])
      && (forall n :: n in table ==> Hash(n) in tagNameTable && tagNameTable[Hash(n)] == n)
      && tagNameTable.Keys == tagTable.Keys
      && (forall t :: t in tagNameTable ==> tagNameTable[t] in table && Hash(tagNameTable[t]) == t)
    }

    method RegisterHandler(name: Name, entry: Entry)
      modifies this`table
      ensures table == old(table)[name := entry]
    {
      table := table[name := entry];
    }

    /** `emplace` does not overwrite: an occupied tag throws. */
    method RegisterByTag(tag: Tag, name: Name, entry: Entry) returns (ok: bool)
      modifies this`tagTable, this`tagNameTable
      ensures ok <==> tag !in old(tagTable)
      ensures ok ==> tagTable == old(tagTable)[tag := entry]
      ensures ok ==> tagNameTable == if tag in old(tagNameTable) then old(tagNameTable) else old(tagNameTable)[tag := name]
      ensures !ok ==> tagTable == old(tagTable) && tagNameTable == old(tagNameTable)
    {
      ok := tag !in tagTable;
      if ok {
        tagTable := tagTable[tag := entry];
        if tag !in tagNameTable {
          tagNameTable := tagNameTable[tag := name];
        }
      }
    }

    /** One line pair of the generated registration: by name, then by tag. */
    method Register(name: Name, entry: Entry) returns (ok: bool)
      requires Valid() && name !in table
      modifies this
      ensures ok <==> forall n :: n in old(table) ==> Hash(n) != Hash(name)
      ensures ok ==> Valid() && table == old(table)[name := entry]
    {
      hide Hash;
      var tag := Fnv1a32(name);
      RegisterHandler(name, entry);
      ok := RegisterByTag(tag, name, entry);
      if !ok {
        assert Hash(tagNameTable[tag]) == tag;
      }
    }

    function Lookup(name: Name): (r: Result<Entry>)
      reads this
    {
      if name in table then Ok(table[name]) else Err(NoHandler)
    }

    function LookupByTag(tag: Tag): (r: Result<Entry>)
      reads this
    {
      if tag in tagTable then Ok(tagTable[tag]) else Err(NoHandler)
    }

    /** The empty name stands for an unknown tag. */
    function TypeNameForTag(tag: Tag): (name: Name)
      reads this
      ensures Valid() && tag in tagTable ==> name in table && Hash(name) == tag
    {
      if tag in tagNameTable then tagNameTable[tag] else []
    }

    /** Dispatch by the tag of a registered name is dispatch by the name. */
    lemma TagDispatch(name: Name)
      requires Valid() && name in table
      ensures LookupByTag(Hash(name)) == Lookup(name) == Ok(table[name])
      ensures TypeNameForTag(Hash(name)) == name
    {
    }

    /** What is not registered is not found: no handler by its name, and none, and no name, by a tag
        that no registered name has. */
    lemma UnknownNotFound(name: Name, tag: Tag)
      requires Valid()
      ensures name !in table ==> Lookup(name) == Err(NoHandler)
      ensures (forall n :: n in table ==> Hash(n) != tag) <==> LookupByTag(tag) == Err(NoHandler)
      ensures LookupByTag(tag).Err? ==> TypeNameForTag(tag) == []
    {
      hide Hash;
      if tag in tagTable {
        assert tagNameTable[tag] in table && Hash(tagNameTable[tag]) == tag;
      }
    }
  }

  ghost predicate Distinct(entries: seq<(Name, Entry)>) {
    forall i, j :: 0 <= i < j < |entries| ==> entries[i].0 != entries[j].0
  }

  ghost predicate CollisionFree(names: seq<Name>) {
    forall i, j :: 0 <= i < j < |names| && Hash(names[i]) == Hash(names[j]) ==> names[i] == names[j]
  }

  function Names(entries: seq<(Name, Entry)>): (r: seq<Name>)
    ensures |r| == |entries|
  {
    seq(|entries|, i requires 0 <= i < |entries| => entries[i].0)
  }

  /** The compile-time check of `render_cdr_register_all`: it passes exactly when no two different
      names share a tag. */
  method CheckCollisions(names: seq<Name>) returns (ok: bool)
    ensures ok <==> CollisionFree(names)
  {
    hide Hash;
    var seen: map<Tag, Name> := map[];
    for k := 0 to |names|
      invariant forall i :: 0 <= i < k ==> Hash(names[i]) in seen && seen[Hash(names[i])] == names[i]
      invariant forall t :: t in seen ==> exists i :: 0 <= i < k && names[i] == seen[t] && Hash(names[i]) == t
    {
      var tag := Fnv1a32(names[k]);
      if tag in seen {
        if seen[tag] != names[k] {
          return false;
        }
      } else {
        seen := seen[tag := names[k]];
      }
    }
    return true;
  }

  ghost predicate NoSharedTag(names: seq<Name>) {
    forall i, j :: 0 <= i < j < |names| ==> Hash(names[i]) != Hash(names[j])
  }

  /** What the generated `register_all_cdr_handlers` does; it throws at the first occupied tag. */
  method RegisterAll(reg: CdrRegistry, entries: seq<(Name, Entry)>) returns (ok: bool)
    requires reg.table == map[] && reg.Valid()
    requires Distinct(entries)
    modifies reg
    ensures ok <==> CollisionFree(Names(entries))
    ensures ok ==> reg.Valid()
    ensures ok ==> forall n :: n in reg.table <==> n in Names(entries)
    ensures ok ==> forall i :: 0 <= i < |entries| ==> entries[i].0 in reg.table && reg.table[entries[i].0] == entries[i].1
  {
    hide Hash, CdrRegistry.Valid;
    var names := Names(entries);
    for k := 0 to |entries|
      invariant reg.Valid()
      invariant forall n :: n in reg.table ==> exists i :: 0 <= i < k && names[i] == n
      invariant forall i :: 0 <= i < k ==> names[i] in reg.table && reg.table[names[i]] == entries[i].1
      invariant NoSharedTag(names[..k])
    {
      assert names[k] == entries[k].0;
      var added := reg.Register(entries[k].0, entries[k].1);
      if !added {
        return false;
      }
      assert names[..k + 1] == names[..k] + [names[k]];
    }
    assert names[..|names|] == names;
    ok := true;
  }
}
