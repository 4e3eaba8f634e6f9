/** A node: its index objects in a table and a list, and reads and writes by id. */
module NodeObjects {
  import opened Wrappers
  import opened Values
  import opened Client
  import opened IndexObject
  import opened DeviceObject
  import Address

  /** A group of an EDS file: its name, and its keys "DataType" and "AccessType". */
  datatype Group = Group(name: string, dataType: Option<nat>, hasAccessType: bool)

  /** The first four characters are hexadecimal digits. */
  predicate IsIndexName(name: string) {
    forall j :: 0 <= j < 4 && j < |name| ==> Address.HexDigit(name[j]).Some?
  }

  predicate IsIndexGroup(g: Group) {
    IsIndexName(g.name) && g.dataType.Some? && g.hasAccessType
  }

  function IndexGroups(groups: seq<Group>): (r: seq<Group>)
    ensures forall k :: 0 <= k < |r| ==> IsIndexGroup(r[k]) && r[k] in groups
  {
    if groups == [] then []
    else
      var g := groups[|groups| - 1];
      IndexGroups(groups[..|groups| - 1]) + (if IsIndexGroup(g) then [g] else [])
  }

  /** Exactly the groups that describe an index object are taken. */
  lemma {:induction false} IndexGroupsExact(groups: seq<Group>, g: Group)
    ensures g in IndexGroups(groups) <==> g in groups && IsIndexGroup(g)
  {
    if groups != [] {
      var n := |groups| - 1;
      IndexGroupsExact(groups[..n], g);
      assert groups == groups[..n] + [groups[n]];
    }
  }

  lemma IndexGroupsOfOne(g: Group)
    ensures IndexGroups([g]) == if IsIndexGroup(g) then [g] else []
  {
    assert [g][..0] == [];
    assert IndexGroups([]) == [];
  }

  lemma IndexGroupsNext(groups: seq<Group>, i: nat)
    requires i < |groups|
    ensures IndexGroups(groups[..i + 1]) == IndexGroups(groups[..i]) + IndexGroups([groups[i]])
  {
    assert groups[..i + 1][..i] == groups[..i];
    IndexGroupsOfOne(groups[i]);
  }

  lemma AllGroups(groups: seq<Group>)
    ensures groups[..|groups|] == groups && IndexGroups(groups[..0]) == []
  {
    assert groups[..0] == [];
  }

  lemma NameIsNew(groups: seq<Group>, i: nat)
    requires DistinctNames(groups) && i < |groups|
    ensures forall k :: 0 <= k < |IndexGroups(groups[..i])| ==> IndexGroups(groups[..i])[k].name != groups[i].name
  {
    forall k | 0 <= k < |IndexGroups(groups[..i])|
      ensures IndexGroups(groups[..i])[k].name != groups[i].name
    {
      assert IndexGroups(groups[..i])[k] in groups[..i];
    }
  }

  predicate DistinctNames(groups: seq<Group>) {
    forall i, j :: 0 <= i < j < |groups| ==> groups[i].name != groups[j].name
  }

  /** The ids as `GetIndexes` lists them: a comma is put when more than one character is there. */
  function Listing(ids: seq<string>): string {
    if ids == [] then ""
    else
      var before := Listing(ids[..|ids| - 1]);
      before + (if |before| > 1 then "," else "") + ids[|ids| - 1]
  }

  lemma ListingNext(ids: seq<string>, k: nat)
    requires k < |ids|
    ensures var before := Listing(ids[..k]);
            Listing(ids[..k + 1]) == before + (if |before| > 1 then "," else "") + ids[k]
  {
    assert ids[..k + 1][..k] == ids[..k];
  }

  function Join(ids: seq<string>): string {
    if ids == [] then ""
    else if |ids| == 1 then ids[0]
    else Join(ids[..|ids| - 1]) + "," + ids[|ids| - 1]
  }

  /** The list is separated by commas exactly when its first id has more than one character. */
  lemma {:induction false} ListingIsJoin(ids: seq<string>)
    ensures Listing(ids) == Join(ids) <==> |ids| <= 1 || |ids[0]| > 1
    ensures |ids| >= 1 && |ids[0]| > 1 ==> |Listing(ids)| > 1
    ensures |Listing(ids)| <= |Join(ids)|
  {
    if |ids| == 1 {
      assert ids[..0] == [];
      assert Listing(ids[..0]) == "";
    } else if |ids| > 1 {
      var init := ids[..|ids| - 1];
      ListingIsJoin(init);
      if |ids[0]| <= 1 {
        ListingShorter(ids);
      }
    }
  }

  lemma {:induction false} ListingShorter(ids: seq<string>)
    requires |ids| >= 2 && |ids[0]| <= 1
    ensures |Listing(ids)| < |Join(ids)|
  {
    var init := ids[..|ids| - 1];
    if |ids| == 2 {
      assert init == [ids[0]];
      assert init[..0] == [];
      assert Listing(init[..0]) == "";
      assert Listing(init) == ids[0] && Join(init) == ids[0];
    } else {
      ListingShorter(init);
    }
  }

  lemma PrefixNext<T>(s: seq<T>, k: nat)
    requires k < |s|
    ensures s[..k + 1] == s[..k] + [s[k]]
  {
  }

  /** The objects are the ones made from the groups, in order. */
  ghost predicate MadeFrom(objects: seq<NodeIndexObject>, groups: seq<Group>) {
    && |objects| == |groups|
    && forall k :: 0 <= k < |groups| ==>
         objects[k].id == groups[k].name && Some(objects[k].dataType) == groups[k].dataType
  }

  lemma MadeFromNext(objects: seq<NodeIndexObject>, groups: seq<Group>, o: NodeIndexObject, g: Group)
    requires MadeFrom(objects, groups) && o.id == g.name && Some(o.dataType) == g.dataType
    ensures MadeFrom(objects + [o], groups + [g])
  {
  }

  class NodeObject {
    var indexes: map<string, NodeIndexObject>
    var lindex: seq<NodeIndexObject>
    /** The D-Bus property "node-id". */
    var nodeId: nat
    /** The device behind the node's device address, if there is one. */
    const device: NodeDeviceObject?

    /** Table and list hold the same objects under their ids, all valid and with the current node id. */
    ghost predicate Valid()
      reads this, lindex
    {
      && (forall o :: o in lindex ==> o.Valid() && o.node == nodeId && o.id in indexes && indexes[o.id] == o)
      && (forall id :: id in indexes ==> indexes[id] in lindex && indexes[id].id == id)
      && |lindex| == |indexes|
    }

    constructor (device: NodeDeviceObject?)
      ensures Valid() && lindex == [] && nodeId == 0 && this.device == device
    {
      indexes, lindex, nodeId := map[], [], 0;
      this.device := device;
    }

    /** The test of a group's name. */
    method HasIndexName(name: string) returns (isIndex: bool)
      ensures isIndex <==> IsIndexName(name)
    {
      isIndex := true;
      var j := 0;
      while j < 4 && j < |name|
        invariant 0 <= j <= 4 && j <= |name|
        invariant isIndex <==> forall n :: 0 <= n < j ==> Address.HexDigit(name[n]).Some?
      {
        if Address.HexDigit(name[j]).None? {
          isIndex := false;
        }
        j := j + 1;
      }
    }

    /** One new index object, entered in the table and at the end of the list. */
    method AddIndex(id: string, dataType: nat) returns (index: NodeIndexObject)
      requires Valid() && nodeId == 0 && id !in indexes
      modifies this`indexes, this`lindex
      ensures Valid() && fresh(index) && index.id == id && index.dataType == dataType
      ensures lindex == old(lindex) + [index]
    {
      index := new NodeIndexObject(id, dataType);
      indexes := indexes[index.id := index];
      lindex := lindex + [index];
    }

    /** One group of the file; `gs` are the index groups before it. */
    method LoadGroup(g: Group, ghost gs: seq<Group>)
      requires Valid() && nodeId == 0 && MadeFrom(lindex, gs)
      requires forall k :: 0 <= k < |gs| ==> gs[k].name != g.name
      modifies this`indexes, this`lindex
      ensures Valid() && MadeFrom(lindex, gs + IndexGroups([g]))
    {
      IndexGroupsOfOne(g);
      assert gs + [] == gs;
      var isIndex := HasIndexName(g.name);
      if isIndex {
        isIndex := g.dataType.Some? && g.hasAccessType;
      }
      if isIndex {
        assert g.name !in indexes;
        ghost var before := lindex;
        var index := AddIndex(g.name, g.dataType.value);
        MadeFromNext(before, gs, index, g);
      }
    }

    method LoadNext(groups: seq<Group>, i: nat)
      requires Valid() && nodeId == 0 && DistinctNames(groups)
      requires i < |groups| && MadeFrom(lindex, IndexGroups(groups[..i]))
      modifies this`indexes, this`lindex
      ensures Valid() && MadeFrom(lindex, IndexGroups(groups[..i + 1]))
    {
      IndexGroupsNext(groups, i);
      NameIsNew(groups, i);
      LoadGroup(groups[i], IndexGroups(groups[..i]));
    }

    /** `node_object_load_indexes_table`: one index object for every group that describes one. */
    method LoadIndexesTable(groups: seq<Group>)
      requires Valid() && lindex == [] && nodeId == 0 && DistinctNames(groups)
      modifies this`indexes, this`lindex
      ensures Valid() && MadeFrom(lindex, IndexGroups(groups))
    {
      indexes := map[];
      AllGroups(groups);
      var i := 0;
      while i < |groups|
        invariant i <= |groups| && Valid() && MadeFrom(lindex, IndexGroups(groups[..i]))
      {
        LoadNext(groups, i);
        i := i + 1;
      }
    }

    /** Gives every listed object the node id. */
    method SetNodes(id: nat)
      modifies lindex`node
      ensures forall o :: o in lindex ==> o.node == id
    {
      var k := 0;
      while k < |lindex|
        invariant 0 <= k <= |lindex|
        invariant forall o :: o in lindex[..k] ==> o.node == id
      {
        PrefixNext(lindex, k);
        lindex[k].SetNode(id);
        k := k + 1;
      }
    }

    /** `node_object_simple_change_id`: a new node id goes to every index object. */
    method ChangeId(id: nat)
      requires Valid()
      modifies this`nodeId, lindex`node
      ensures Valid() && nodeId == id
      ensures forall o :: o in lindex ==> o.State() == old(o.State()).(node := id)
    {
      nodeId := id;
      SetNodes(id);
    }

    /** `node_object_lookup_index`: what is found carries the id asked for and the current node id. */
    method LookupIndex(id: string) returns (index: NodeIndexObject?)
      requires Valid()
      ensures index != null <==> id in indexes
      ensures index != null ==> && index == indexes[id] && index in lindex && index.Valid()
                                && index.id == id && index.node == nodeId
                                && (index.index, index.subindex) == Address.Parse(id)
    {
      if id in indexes {
        return indexes[id];
      }
      return null;
    }

    /** `node_object_get_indexes`. */
    method GetIndexes() returns (s: string)
      requires Valid()
      ensures s == Listing(Ids())
    {
      s := "";
      var k := 0;
      while k < |lindex|
        invariant 0 <= k <= |lindex|
        invariant s == Listing(Ids()[..k])
      {
        ListingNext(Ids(), k);
        s := s + (if |s| > 1 then "," else "") + lindex[k].id;
        k := k + 1;
      }
      assert Ids()[..|lindex|] == Ids();
    }

    ghost function Ids(): (r: seq<string>)
      reads this
      ensures |r| == |lindex|
    {
      seq(|lindex|, k requires 0 <= k < |lindex| reads this => lindex[k].id)
    }

    /** `node_object_read_value`: reads the index object with an id from the bus. */
    method ReadValue(id: string, x: Exchange) returns (value: Option<Value>)
      requires Valid()
      modifies lindex`stringValue, lindex`internalValue, lindex`toggleByte, lindex`len
      modifies device
      ensures Valid()
      ensures id !in indexes || device == null || !old(device.isOpen) ==> value == None
      ensures id in indexes && device != null && old(device.isOpen) ==>
                var r := ReadRun(old(indexes[id].State()), x);
                && value == (if Succeeds(r.result) then Some(r.st.value) else None)
                && indexes[id].State() == r.st
                && device.sent == old(device.sent) + r.sent
      ensures forall o :: o in lindex && (id !in indexes || o != indexes[id]) ==> o.State() == old(o.State())
      ensures device != null ==> device.isOpen == old(device.isOpen)
    {
      var index := LookupIndex(id);
      if index == null || device == null {
        return None;
      }
      var ok, _ := device.ReadIndex(index, x);
      if ok {
        return Some(index.internalValue);
      }
      return None;
    }

    /** Gives a listed index object a value. */
    method TakeValue(index: NodeIndexObject, value: Value, transformed: Option<Value>) returns (ok: bool)
      requires Valid() && index in lindex
      modifies index`internalValue
      ensures Valid() && ok == Given(value, transformed, index.gType).Some?
      ensures index.State() == if ok then old(index.State()).(value := Given(value, transformed, index.gType).value)
                               else old(index.State())
    {
      ok := index.SetValue(value, transformed);
    }

    /** Writes a listed index object over the bus. */
    method WriteOut(index: NodeIndexObject, x: Exchange) returns (ok: bool)
      requires Valid() && index in lindex && device != null
      modifies index`stringValue, index`internalValue, index`toggleByte, index`len, device
      ensures Valid() && device.isOpen == old(device.isOpen)
      ensures if device.isOpen then
                var r := WriteRun(old(index.State()), x);
                ok == Succeeds(r.result) && index.State() == r.st && device.sent == old(device.sent) + r.sent
              else !ok && index.State() == old(index.State())
    {
      var done, _ := device.WriteIndex(index, x);
      ok := done;
    }

    /**
     * `node_object_write_value`: sets the value of the index object with an id and writes it to the
     * bus.  `transformed` is what GLib makes of a value of another type, if it can.
     */
    method WriteValue(id: string, value: Value, transformed: Option<Value>, x: Exchange) returns (ok: bool)
      requires Valid()
      modifies lindex`stringValue, lindex`internalValue, lindex`toggleByte, lindex`len
      modifies device
      ensures Valid()
      ensures id !in indexes ==> !ok
      ensures id in indexes ==>
                var given := Given(value, transformed, indexes[id].gType);
                if given == None then !ok && indexes[id].State() == old(indexes[id].State())
                else
                  var st := old(indexes[id].State()).(value := given.value);
                  if device == null || !old(device.isOpen) then !ok && indexes[id].State() == st
                  else
                    var r := WriteRun(st, x);
                    && ok == Succeeds(r.result) && indexes[id].State() == r.st
                    && device.sent == old(device.sent) + r.sent
      ensures forall o :: o in lindex && (id !in indexes || o != indexes[id]) ==> o.State() == old(o.State())
      ensures device != null ==> device.isOpen == old(device.isOpen)
    {
      var index := LookupIndex(id);
      if index == null {
        return false;
      }
      var taken := TakeValue(index, value, transformed);
      if !taken || device == null {
        return false;
      }
      ok := WriteOut(index, x);
    }
  }
}
