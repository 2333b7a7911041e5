/** The segment catalogue: two maps in memory and their record in the master segment. */
module Catalogues {
  import opened Occupancies
  import opened PageTypes
  import opened SegmentFsms
  import opened SegmentFsmSps
  import opened SegmentTuples
  import S = SlottedPages

  type Name = seq<byte>

  /** By ID and by name are two views of the same entries. */
  ghost predicate Inverse(byID: map<uint16, SegmentT>, byName: map<Name, uint16>) {
    && (forall id :: id in byID ==> byID[id].ID == id && byID[id].name in byName && byName[byID[id].name] == id)
    && (forall n :: n in byName ==> byName[n] in byID && byID[byName[n]].name == n)
  }

  /** The entry stored under a tuple identifier, None if there is no live record or it cannot be read. */
  ghost function Entry(s: Seg, t: TID): Option<SegmentT> {
    if At(s, t) == None then None else Decode(At(s, t).value)
  }

  /** The live records of the master segment are exactly the entries by ID, home says which is where. */
  ghost predicate Durable(byID: map<uint16, SegmentT>, home: map<uint16, TID>, s: Seg) {
    && (forall t: TID :: Live(s, t) ==> Listed(byID, home, s, t))
    && (forall id :: id in byID ==> Recorded(byID, home, s, id))
  }

  ghost predicate Listed(byID: map<uint16, SegmentT>, home: map<uint16, TID>, s: Seg, t: TID) {
    && Entry(s, t).Some? && Entry(s, t).value.ID in byID && Entry(s, t).value.ID in home
    && byID[Entry(s, t).value.ID] == Entry(s, t).value && home[Entry(s, t).value.ID] == t
  }

  ghost predicate Recorded(byID: map<uint16, SegmentT>, home: map<uint16, TID>, s: Seg, id: uint16)
    requires id in byID
  {
    id in home && Live(s, home[id]) && Entry(s, home[id]) == Some(byID[id])
  }

  // ----- one entry more, one entry less -----

  lemma InverseAdd(byID: map<uint16, SegmentT>, byName: map<Name, uint16>, v: SegmentT)
    requires Inverse(byID, byName) && v.ID !in byID && v.name !in byName
    ensures Inverse(byID[v.ID := v], byName[v.name := v.ID])
  {
  }

  lemma InverseRemove(byID: map<uint16, SegmentT>, byName: map<Name, uint16>, id: uint16)
    requires Inverse(byID, byName) && id in byID
    ensures Inverse(byID - {id}, byName - {byID[id].name})
  {
  }

  /** An inserted entry can be read back. */
  lemma EntryInserted(s: Seg, s': Seg, t: TID, v: SegmentT)
    requires |v.Encode()| < 0xFFFF_FFF9 && Inserted(s, s', [t], [v.Encode()]) && 0 !in v.name
    ensures Live(s', t) && !Live(s, t) && Entry(s', t) == Some(v)
  {
    hide At, SegmentT.Encode, Decode;
    var data := v.Encode();
    assert GainedAt(s, s', [t][0], [data][0]);
    var r := At(s', t).value;
    assert r == data + r[|data|..];
    RoundTrip(v, r[|data|..]);
  }

  lemma DurableAdd(byID: map<uint16, SegmentT>, home: map<uint16, TID>, s: Seg, s': Seg, t: TID, v: SegmentT)
    requires Durable(byID, home, s) && v.ID !in byID && 0 !in v.name
    requires |v.Encode()| < 0xFFFF_FFF9 && Inserted(s, s', [t], [v.Encode()])
    ensures Durable(byID[v.ID := v], home[v.ID := t], s')
  {
    hide At, SegmentT.Encode, Decode;
    EntryInserted(s, s', t, v);
    var byID', home' := byID[v.ID := v], home[v.ID := t];
    forall u: TID | Live(s', u) ensures Listed(byID', home', s', u) {
      if u != t {
        assert SameAt(s, s', u);
        assert Live(s, u) && Listed(byID, home, s, u);
      }
    }
    forall id | id in byID' ensures Recorded(byID', home', s', id) {
      if id != v.ID {
        assert Recorded(byID, home, s, id) && SameAt(s, s', home[id]);
      }
    }
  }

  lemma DurableRemove(byID: map<uint16, SegmentT>, home: map<uint16, TID>, s: Seg, s': Seg, t: TID, id: uint16)
    requires Durable(byID, home, s) && id in byID && Live(s, t) && Entry(s, t).Some? && Entry(s, t).value.ID == id
    requires At(s', t) == None && forall u: TID :: u == t || SameAt(s, s', u)
    requires forall i :: i in byID ==> byID[i].ID == i
    ensures Durable(byID - {id}, home, s')
  {
    hide At, Decode;
    assert Listed(byID, home, s, t);
    forall u: TID | Live(s', u) ensures Listed(byID - {id}, home, s', u) {
      assert SameAt(s, s', u) && Live(s, u) && Listed(byID, home, s, u);
    }
    forall i | i in byID - {id} ensures Recorded(byID - {id}, home, s', i) {
      assert Recorded(byID, home, s, i);
      assert home[i] != t;
      assert SameAt(s, s', home[i]);
    }
  }

  lemma EmptyCatalogue(home: map<uint16, TID>, s: Seg)
    requires s.pages == []
    ensures Inverse(map[], map[]) && Durable(map[], home, s)
  {
    forall t: TID ensures !Live(s, t) {
      AtNowhere(s, t);
    }
  }

  /** Without its record, an entry in the map is not durable. */
  lemma NotStored(byID: map<uint16, SegmentT>, home: map<uint16, TID>, s: Seg, s': Seg, v: SegmentT,
                  home': map<uint16, TID>)
    requires Durable(byID, home, s) && v.ID !in byID && Inserted(s, s', [], [])
    ensures !Durable(byID[v.ID := v], home', s')
  {
    hide At, Decode;
    if v.ID in home' {
      assert home'[v.ID] in [] || SameAt(s, s', home'[v.ID]);
      NoSuch(byID, home, s, home'[v.ID], v.ID);
    }
    assert !Recorded(byID[v.ID := v], home', s', v.ID);
  }

  lemma NoSuch(byID: map<uint16, SegmentT>, home: map<uint16, TID>, s: Seg, t: TID, id: uint16)
    requires Durable(byID, home, s) && id !in byID
    ensures !IsEntry(s, t, id)
  {
    hide At, Decode;
    if Live(s, t) {
      assert Listed(byID, home, s, t);
    }
  }

  /** The entries outside a partition. */
  ghost function Without(byID: map<uint16, SegmentT>, partID: byte): map<uint16, SegmentT> {
    map id | id in byID && byID[id].partID != partID :: byID[id]
  }

  /** A live record with the given ID. */
  ghost predicate IsEntry(s: Seg, t: TID, id: uint16) {
    Live(s, t) && Entry(s, t).Some? && Entry(s, t).value.ID == id
  }

  class SegmentManager {
    var counter: uint16
    var byID: map<uint16, SegmentT>
    var byName: map<Name, uint16>
    const masterName: Name
    const master: SegmentFSM_SP
    ghost var home: map<uint16, TID>

    /** Both maps agree with each other and with the master segment, and the counter is above every ID. */
    ghost predicate Consistent()
      reads this, master, master.base
    {
      && Inverse(byID, byName) && Durable(byID, home, master.base.View())
      && masterName in byName && master.base.View().Valid()
      && forall id :: id in byID ==> id < counter
    }

    constructor (master: SegmentFSM_SP, masterName: Name)
      ensures this.master == master && this.masterName == masterName
      ensures byID == map[] && byName == map[] && counter == 0
    {
      this.master, this.masterName := master, masterName;
      byID, byName, counter, home := map[], map[], 0, map[];
    }

    /**
     * Creates a segment with the given index page. Refused if the name is taken; otherwise both maps have the new
     * entry, and all stays consistent exactly if its record could be stored, as it always can for records of a
     * safe size on a sound master segment.
     */
    method CreateNewSegmentFSM_SP(partID: byte, name: Name, firstPage: uint32)
      returns (taken: bool, stored: bool)
      requires Consistent() && 0 !in name && |name| < 0xFFFF_FF00 && counter < 0xFFFF
      requires master.base.View().Spare(1)
      modifies this, master, master.base
      ensures taken <==> name in old(byName)
      ensures taken ==> Consistent() && byID == old(byID) && byName == old(byName) && counter == old(counter)
      ensures taken ==> master.base.View() == old(master.base.View()) && !stored
      ensures !taken ==>
        && byID == old(byID)[old(counter) := SegmentT(partID, old(counter), name, 2, firstPage)]
        && byName == old(byName)[name := old(counter)] && counter == old(counter) + 1
        && (stored <==> Consistent())
      ensures !taken && SafeSize(|name| + 9) && old(master.base.View()).Sound() ==> stored && master.base.View().Sound()
      ensures old(master.base.View()).Framed(master.base.View(), master.base.View().DataPages())
    {
      hide Seg.Valid, Seg.Sound, Seg.Spare, Durable, Inverse;
      if name in byName {
        return true, false;
      }
      var id := counter;
      counter := (counter + 1) % 0x1_0000;
      stored := CreateSegmentSub(SegmentT(partID, id, name, 2, firstPage));
      taken := false;
    }

    method CreateSegmentSub(v: SegmentT) returns (stored: bool)
      requires Inverse(byID, byName) && Durable(byID, home, master.base.View())
      requires master.base.View().Valid() && master.base.View().Spare(1)
      requires v.ID !in byID && v.name !in byName && 0 !in v.name && |v.name| < 0xFFFF_FF00
      modifies this`byID, this`byName, this`home, master, master.base
      ensures byID == old(byID)[v.ID := v] && byName == old(byName)[v.name := v.ID]
      ensures Inverse(byID, byName) && master.base.View().Valid()
      ensures stored <==> Durable(byID, home, master.base.View())
      ensures Consumed(old(master.base.View()), master.base.View(), 1)
      ensures SafeSize(|v.name| + 9) && old(master.base.View()).Sound() ==> stored && master.base.View().Sound()
      ensures old(master.base.View()).Framed(master.base.View(), master.base.View().DataPages())
    {
      hide Seg.Valid, Seg.Sound, Seg.Spare, Durable, Inverse, Inserted, SegmentT.Encode;
      EncodeSize(v);
      InverseAdd(byID, byName, v);
      ghost var s, known := master.base.View(), byID;
      byID := byID[v.ID := v];
      byName := byName[v.name := v.ID];
      var r := master.InsertTuple(v.Encode());
      stored := r.Some?;
      if stored {
        DurableAdd(known, home, s, master.base.View(), r.value, v);
        home := home[v.ID := r.value];
      } else {
        NotStored(known, home, s, master.base.View(), v, home);
      }
    }

    /** Installation: the first entries are those of the two master segments, the one of segments written first. */
    method CreateMasterSegments(partID: byte, aName: Name, firstPageP: uint32, firstPageS: uint32)
      requires byID == map[] && byName == map[] && counter == 0
      requires master.base.View().Valid() && master.base.View().Sound() && master.base.View().Spare(2)
      requires master.base.pages == []
      requires aName != masterName && 0 !in aName && 0 !in masterName && SafeSize(|aName| + 9)
      requires SafeSize(|masterName| + 9)
      modifies this, master, master.base
      ensures Consistent() && master.base.View().Sound() && counter == 2
      ensures byID ==
        map[0 := SegmentT(partID, 0, aName, 2, firstPageP), 1 := SegmentT(partID, 1, masterName, 2, firstPageS)]
      ensures old(master.base.View()).Framed(master.base.View(), master.base.View().DataPages())
    {
      hide Seg.Valid, Seg.Sound, Durable, Inverse, Seg.Framed;
      ghost var v := master.base.View();
      EmptyCatalogue(home, master.base.View());
      counter := counter + 1;
      counter := counter + 1;
      var s := CreateSegmentSub(SegmentT(partID, 1, masterName, 2, firstPageS));
      ghost var m := master.base.View();
      var p := CreateSegmentSub(SegmentT(partID, 0, aName, 2, firstPageP));
      FramedData(v, m, master.base.View(), m.DataPages());
    }

    /** Marks the first live record of the master segment that has the given ID; None if there is none. */
    method DeleteTuplePhysically(aID: uint16) returns (r: Option<TID>)
      requires master.base.View().Valid()
      requires forall t: TID :: Live(master.base.View(), t) ==> Entry(master.base.View(), t).Some?
      modifies master.base
      ensures master.base.View().Valid() && (old(master.base.View()).Sound() ==> master.base.View().Sound())
      ensures r.Some? ==> IsEntry(old(master.base.View()), r.value, aID) && At(master.base.View(), r.value) == None
      ensures r.Some? ==> forall u: TID :: u == r.value || SameAt(old(master.base.View()), master.base.View(), u)
      ensures r.Some? ==>
        && PageOnly(old(master.base.View()), master.base.View(), r.value.pageNo)
        && FirstEntry(old(master.base.View()), r.value, aID)
      ensures r.None? ==>
        master.base.View() == old(master.base.View()) && forall t: TID :: !IsEntry(master.base.View(), t, aID)
    {
      hide Seg.Valid, Seg.Sound, SameAt, Searched, FirstEntry, PageOnly;
      ghost var s := master.base.View();
      SearchedNone(s, aID);
      for i := 0 to |master.base.pages|
        invariant master.base.View() == s && Searched(s, aID, i, 0)
      {
        r := DeleteOnPage(aID, i);
        if r.Some? {
          return;
        }
      }
      SearchedAll(s, aID);
      return None;
    }

    /** The search on page i. */
    method DeleteOnPage(aID: uint16, i: nat) returns (r: Option<TID>)
      requires master.base.View().Valid() && i < |master.base.pages| && Searched(master.base.View(), aID, i, 0)
      requires forall t: TID :: Live(master.base.View(), t) ==> Entry(master.base.View(), t).Some?
      modifies master.base
      ensures master.base.View().Valid() && (old(master.base.View()).Sound() ==> master.base.View().Sound())
      ensures r.Some? ==> IsEntry(old(master.base.View()), r.value, aID) && At(master.base.View(), r.value) == None
      ensures r.Some? ==> forall u: TID :: u == r.value || SameAt(old(master.base.View()), master.base.View(), u)
      ensures r.Some? ==>
        && PageOnly(old(master.base.View()), master.base.View(), r.value.pageNo)
        && FirstEntry(old(master.base.View()), r.value, aID)
      ensures r.None? ==> master.base.View() == old(master.base.View()) && Searched(master.base.View(), aID, i + 1, 0)
    {
      hide Seg.Valid, Seg.Sound, SameAt, Searched, S.Good, S.Stored, S.NoRecords, S.SlotAt, S.Offset, S.Size, At;
      hide Decode, PageOnly;
      ghost var s := master.base.View();
      s.ValidReadable();
      PageFacts(s, i);
      PagesDistinct(s);
      var p := master.base.store[master.base.pages[i]];
      GoodFacts(p);
      var sp := new S.SlottedPage.Attach(p);
      for j := 0 to S.NoRecords(p)
        invariant sp.Valid() && sp.View() == p && master.base.View() == s && Searched(s, aID, i, j)
      {
        var tid := TID(master.base.pages[i], j);
        var offset := sp.GetRecord(j);
        AtPage(s, i, tid);
        SearchedRecord(s, aID, i, j);
        if offset.Some? {
          assert Live(s, tid);
          var v := ToMemory(p[offset.value..offset.value + S.Size(p, j)]);
          if v.ID == aID {
            master.DeleteRecord(i, j);
            assert FirstEntry(s, tid, aID) by { assert s.pages[i] == tid.pageNo; }
            return Some(tid);
          }
        }
      }
      SearchedPage(s, aID, i, S.NoRecords(p));
      return None;
    }

    /** Deletes a segment other than the master segment by ID; false is the exception for an unknown ID. */
    method DeleteSegment(aID: uint16) returns (ok: bool)
      requires Consistent() && aID != byName[masterName]
      modifies this`byID, this`byName, master.base
      ensures Consistent() && (old(master.base.View()).Sound() ==> master.base.View().Sound())
      ensures ok <==> aID in old(byID)
      ensures !ok ==> master.base.View() == old(master.base.View())
      ensures byID == old(byID) - {aID}
      ensures byName == if ok then old(byName) - {old(byID)[aID].name} else old(byName)
      ensures old(master.base.View()).Framed(master.base.View(), master.base.View().DataPages())
    {
      hide Seg.Valid, Seg.Sound, Durable, SameAt, IsEntry, At;
      if aID !in byID {
        return false;
      }
      ghost var s := master.base.View();
      DurableEntries(byID, home, s, aID);
      var seg := byID[aID];
      var found := DeleteTuplePhysically(aID);
      EntryIs(s, found.value, aID);
      DurableRemove(byID, home, s, master.base.View(), found.value, aID);
      InverseRemove(byID, byName, aID);
      byName := byName - {seg.name};
      byID := byID - {aID};
      return true;
    }

    /** Deletes all segments of a partition that does not hold the master segment. */
    method DeleteSegments(aPartitionID: byte)
      requires Consistent() && byID[byName[masterName]].partID != aPartitionID
      modifies this`byID, this`byName, master.base
      ensures Consistent() && (old(master.base.View()).Sound() ==> master.base.View().Sound())
      ensures byID == Without(old(byID), aPartitionID)
      ensures old(master.base.View()).Framed(master.base.View(), master.base.View().DataPages())
    {
      hide Seg.Valid, Seg.Sound, Durable, Seg.Framed;
      ghost var s := master.base.View();
      FramedSame(s);
      FramedMore(s, s, {}, s.DataPages());
      ghost var was := byID;
      var rest := byID.Keys;
      while rest != {}
        invariant Consistent() && (old(master.base.View()).Sound() ==> master.base.View().Sound())
        invariant s.Framed(master.base.View(), master.base.View().DataPages())
        invariant masterName in byName && byName[masterName] == old(byName[masterName])
        invariant rest <= was.Keys
        invariant forall id :: id in byID <==> id in was && (id in rest || was[id].partID != aPartitionID)
        invariant forall id :: id in byID ==> byID[id] == was[id]
        decreases |rest|
      {
        var id :| id in rest;
        rest := rest - {id};
        if byID[id].partID == aPartitionID {
          ghost var m := master.base.View();
          var ok := DeleteSegment(id);
          FramedData(s, m, master.base.View(), m.DataPages());
        }
      }
    }

    /** Fills both maps of a new manager with the entries read at boot. */
    method Load(tuples: seq<SegmentT>)
      requires byID == map[] && byName == map[]
      modifies this`byID, this`byName, this`counter
      ensures byID == ByID(tuples) && byName == ByName(tuples) && counter == (MaxID(tuples) as int + 1) % 0x1_0000
    {
      var maxID: uint16 := 0;
      for i := 0 to |tuples|
        invariant byID == ByID(tuples[..i]) && byName == ByName(tuples[..i]) && maxID == MaxID(tuples[..i])
      {
        assert tuples[..i + 1][..i] == tuples[..i];
        byID := byID[tuples[i].ID := tuples[i]];
        byName := byName[tuples[i].name := tuples[i].ID];
        if maxID <= tuples[i].ID {
          maxID := tuples[i].ID;
        }
      }
      assert tuples[..|tuples|] == tuples;
      counter := (maxID as int + 1) % 0x1_0000;
    }

    /**
     * Boots a new manager from a master segment alone, which may have lost some of the records another manager kept:
     * the new one has the entries whose records are there. It is consistent exactly if the segment is in order and
     * the entry of the master segment is among them.
     */
    static method Boot(master: SegmentFSM_SP, masterName: Name, ghost was: SegmentManager)
      returns (m: SegmentManager)
      requires was.Consistent() && was.masterName == masterName && master.base.View().Readable()
      requires Reduced(was.master.base.View(), master.base.View())
      ensures fresh(m) && m.master == master && m.masterName == masterName
      ensures m.byID == Surviving(was.byID, was.home, master.base.View())
      ensures m.byName == Names(was.byName, m.byID)
      ensures m.byID != map[] ==> m.counter - 1 in m.byID && forall id :: id in m.byID ==> id < m.counter
      ensures m.byID == map[] ==> m.counter == 1
      ensures m.Consistent() <==> master.base.View().Valid() && masterName in m.byName
    {
      hide Seg.Valid, Seg.Readable, Durable, Inverse, Reduced, Surviving, Names, ByID, ByName, MaxID, Lists;
      ghost var s := master.base.View();
      ghost var byID := Surviving(was.byID, was.home, s);
      ghost var byName := Names(was.byName, byID);
      SurvivingDurable(was.byID, was.byName, was.home, was.master.base.View(), s);
      var tuples := ReadEntries(master, byID, was.home);
      m := new SegmentManager(master, masterName);
      m.Load(tuples);
      m.home := was.home;
      LoadRebuilds(tuples, byID, byName);
      if byID != map[] {
        SurvivingBelow(was.byID, was.home, s, was.counter);
        Below(tuples, byID, was.counter);
      } else {
        NoEntries(tuples, byID);
      }
    }

    /** The entries in the live records of a durable master segment. */
    static method ReadEntries(master: SegmentFSM_SP, ghost byID: map<uint16, SegmentT>, ghost home: map<uint16, TID>)
      returns (tuples: seq<SegmentT>)
      requires master.base.View().Readable() && Durable(byID, home, master.base.View())
      ensures Lists(tuples, byID)
    {
      hide Seg.Readable, Durable, Entry, Decode, At, Earlier, Live;
      ghost var s := master.base.View();
      var tids := master.Scan();
      tuples := [];
      for i := 0 to |tids|
        invariant |tuples| == i
        invariant forall k :: 0 <= k < i ==> Entry(s, tids[k]) == Some(tuples[k])
      {
        assert tids[i] in tids;
        DurableRead(byID, home, s, tids[i]);
        var record := master.GetTuple(tids[i]);
        var v := ToMemory(record.value);
        tuples := tuples + [v];
      }
      BootLists(byID, home, s, tids, tuples);
    }
  }

  // ----- boot -----

  /** The maps that loading builds: a later entry replaces an earlier one. */
  function ByID(tuples: seq<SegmentT>): map<uint16, SegmentT> {
    if tuples == [] then map[]
    else var v := tuples[|tuples| - 1]; ByID(tuples[..|tuples| - 1])[v.ID := v]
  }

  function ByName(tuples: seq<SegmentT>): map<Name, uint16> {
    if tuples == [] then map[]
    else var v := tuples[|tuples| - 1]; ByName(tuples[..|tuples| - 1])[v.name := v.ID]
  }

  function MaxID(tuples: seq<SegmentT>): uint16 {
    if tuples == [] then 0
    else
      var v, m := tuples[|tuples| - 1], MaxID(tuples[..|tuples| - 1]);
      if m <= v.ID then v.ID else m
  }

  /** The sequence holds the entries of the map and nothing else. */
  ghost predicate Lists(tuples: seq<SegmentT>, byID: map<uint16, SegmentT>) {
    && (forall k :: 0 <= k < |tuples| ==> tuples[k].ID in byID && byID[tuples[k].ID] == tuples[k])
    && (forall id :: id in byID ==> byID[id] in tuples)
  }

  lemma {:induction false} LoadedSome(tuples: seq<SegmentT>, byID: map<uint16, SegmentT>, byName: map<Name, uint16>)
    requires Inverse(byID, byName)
    requires forall k :: 0 <= k < |tuples| ==> tuples[k].ID in byID && byID[tuples[k].ID] == tuples[k]
    ensures forall id :: id in ByID(tuples) <==> id in byID && byID[id] in tuples
    ensures forall id :: id in ByID(tuples) ==> ByID(tuples)[id] == byID[id]
    ensures forall n :: n in ByName(tuples) <==> n in byName && byID[byName[n]] in tuples
    ensures forall n :: n in ByName(tuples) ==> ByName(tuples)[n] == byName[n]
    ensures forall v :: v in tuples ==> v.ID <= MaxID(tuples)
  {
    if tuples != [] {
      var front, v := tuples[..|tuples| - 1], tuples[|tuples| - 1];
      LoadedSome(front, byID, byName);
      assert forall u :: u in tuples <==> u in front || u == v;
    }
  }

  /** Loading the entries of a catalogue, in any order, rebuilds both its maps. */
  lemma LoadRebuilds(tuples: seq<SegmentT>, byID: map<uint16, SegmentT>, byName: map<Name, uint16>)
    requires Inverse(byID, byName) && Lists(tuples, byID)
    ensures ByID(tuples) == byID && ByName(tuples) == byName
    ensures forall id :: id in byID ==> id <= MaxID(tuples)
  {
    LoadedSome(tuples, byID, byName);
  }

  /** The largest ID is one of the IDs. */
  lemma {:induction false} Below(tuples: seq<SegmentT>, byID: map<uint16, SegmentT>, bound: nat)
    requires Lists(tuples, byID) && byID != map[] && forall id :: id in byID ==> id < bound
    ensures MaxID(tuples) < bound && MaxID(tuples) in byID
  {
    var id :| id in byID;
    assert byID[id] in tuples;
    MaxIsOne(tuples);
  }

  lemma NoEntries(tuples: seq<SegmentT>, byID: map<uint16, SegmentT>)
    requires Lists(tuples, byID) && byID == map[]
    ensures MaxID(tuples) == 0
  {
  }

  lemma {:induction false} MaxIsOne(tuples: seq<SegmentT>)
    requires tuples != []
    ensures exists v :: v in tuples && v.ID == MaxID(tuples)
  {
    var front, last := tuples[..|tuples| - 1], tuples[|tuples| - 1];
    if front != [] {
      MaxIsOne(front);
      var v :| v in front && v.ID == MaxID(front);
      assert v in tuples && last in tuples;
    } else {
      assert last in tuples && MaxID(front) == 0;
    }
  }

  lemma DurableRead(byID: map<uint16, SegmentT>, home: map<uint16, TID>, s: Seg, t: TID)
    requires Durable(byID, home, s) && Live(s, t)
    ensures At(s, t).Some? && Decode(At(s, t).value).Some? && Entry(s, t) == Decode(At(s, t).value)
  {
    hide Decode;
    assert Listed(byID, home, s, t);
  }

  lemma BootLists(
    byID: map<uint16, SegmentT>, home: map<uint16, TID>, s: Seg, tids: seq<TID>, tuples: seq<SegmentT>)
    requires Durable(byID, home, s) && |tids| == |tuples|
    requires forall t: TID :: t in tids <==> Live(s, t)
    requires forall k :: 0 <= k < |tids| ==> Entry(s, tids[k]) == Some(tuples[k])
    ensures Lists(tuples, byID)
  {
    hide Entry, Live;
    forall k | 0 <= k < |tuples| ensures tuples[k].ID in byID && byID[tuples[k].ID] == tuples[k] {
      assert tids[k] in tids;
      assert Listed(byID, home, s, tids[k]);
    }
    forall id | id in byID ensures byID[id] in tuples {
      assert Recorded(byID, home, s, id);
      var k :| 0 <= k < |tids| && tids[k] == home[id];
    }
  }

  /** Records may be missing from s', but the others are as in s. */
  ghost predicate Reduced(s: Seg, s': Seg) {
    forall t: TID :: SameAt(s, s', t) || At(s', t) == None
  }

  /** The entries whose records are there. */
  ghost function Surviving(byID: map<uint16, SegmentT>, home: map<uint16, TID>, s: Seg): map<uint16, SegmentT> {
    map id | id in byID && id in home && Live(s, home[id]) :: byID[id]
  }

  ghost function Names(byName: map<Name, uint16>, byID: map<uint16, SegmentT>): map<Name, uint16> {
    map n | n in byName && byName[n] in byID :: byName[n]
  }

  lemma SurvivingDurable(byID: map<uint16, SegmentT>, byName: map<Name, uint16>, home: map<uint16, TID>,
                         s: Seg, s': Seg)
    requires Durable(byID, home, s) && Inverse(byID, byName) && Reduced(s, s')
    ensures Durable(Surviving(byID, home, s'), home, s')
    ensures Inverse(Surviving(byID, home, s'), Names(byName, Surviving(byID, home, s')))
  {
    hide At, Decode;
    var rest := Surviving(byID, home, s');
    forall t: TID | Live(s', t) ensures Listed(rest, home, s', t) {
      assert SameAt(s, s', t);
      assert Live(s, t) && Listed(byID, home, s, t);
    }
    forall id | id in rest ensures Recorded(rest, home, s', id) {
      assert Recorded(byID, home, s, id);
      assert SameAt(s, s', home[id]);
    }
  }

  lemma SurvivingBelow(byID: map<uint16, SegmentT>, home: map<uint16, TID>, s: Seg, bound: nat)
    requires forall id :: id in byID ==> id < bound
    ensures forall id :: id in Surviving(byID, home, s) ==> id < bound
  {
    hide Live;
  }

  /** All entries survive exactly if all records do. */
  lemma AllSurvive(byID: map<uint16, SegmentT>, byName: map<Name, uint16>, home: map<uint16, TID>, s: Seg, s': Seg)
    requires Durable(byID, home, s) && Inverse(byID, byName)
    ensures Surviving(byID, home, s') == byID <==> forall t: TID :: Live(s, t) ==> Live(s', t)
    ensures Surviving(byID, home, s') == byID ==> Names(byName, Surviving(byID, home, s')) == byName
  {
    hide At, Decode, Entry, Live;
    if Surviving(byID, home, s') == byID {
      forall t: TID | Live(s, t) ensures Live(s', t) {
        assert Listed(byID, home, s, t);
      }
    }
    if forall t: TID :: Live(s, t) ==> Live(s', t) {
      forall id | id in byID ensures id in Surviving(byID, home, s') {
        assert Recorded(byID, home, s, id);
      }
    }
  }

  lemma EntryIs(s: Seg, t: TID, id: uint16)
    requires IsEntry(s, t, id)
    ensures Live(s, t) && Entry(s, t).Some? && Entry(s, t).value.ID == id
  {
  }

  /** Every live record of a durable catalogue can be read, and the one with a given ID is where home says. */
  lemma DurableEntries(byID: map<uint16, SegmentT>, home: map<uint16, TID>, s: Seg, id: uint16)
    requires Durable(byID, home, s)
    ensures forall t: TID :: Live(s, t) ==> Entry(s, t).Some?
    ensures id in byID ==> id in home && IsEntry(s, home[id], byID[id].ID)
  {
    hide At, Decode;
    forall t: TID | Live(s, t) ensures Entry(s, t).Some? {
      assert Listed(byID, home, s, t);
    }
    if id in byID {
      assert Recorded(byID, home, s, id);
    }
  }

  /** No record with the given ID before record j of page i. */
  ghost predicate Searched(s: Seg, id: uint16, i: nat, j: nat) {
    forall t: TID :: IsEntry(s, t, id) ==> !Before(s, t, i, j)
  }

  /** No record of the same ID is found before this one. */
  ghost predicate FirstEntry(s: Seg, t: TID, id: uint16) {
    exists i :: 0 <= i < |s.pages| && s.pages[i] == t.pageNo && Searched(s, id, i, t.tupleNo)
  }

  lemma SearchedNone(s: Seg, id: uint16)
    ensures Searched(s, id, 0, 0)
  {
    hide IsEntry;
  }

  lemma SearchedAll(s: Seg, id: uint16)
    requires Searched(s, id, |s.pages|, 0)
    ensures forall t: TID :: !IsEntry(s, t, id)
  {
    hide Before, At, Decode;
    forall t: TID ensures !IsEntry(s, t, id) {
      AllBefore(s, t);
    }
  }

  lemma SearchedRecord(s: Seg, id: uint16, i: nat, j: uint16)
    requires NoDup(s.pages) && i < |s.pages| && Searched(s, id, i, j)
    ensures !IsEntry(s, TID(s.pages[i], j), id) ==> Searched(s, id, i, j + 1)
  {
    hide IsEntry, Before;
    if !IsEntry(s, TID(s.pages[i], j), id) {
      forall t: TID | IsEntry(s, t, id) ensures !Before(s, t, i, j + 1) {
        BeforeNext(s, t, i, j);
      }
    }
  }

  lemma SearchedPage(s: Seg, id: uint16, i: nat, n: nat)
    requires i < |s.pages| && s.pages[i] in s.store && n == S.NoRecords(s.store[s.pages[i]]) && Searched(s, id, i, n)
    ensures Searched(s, id, i + 1, 0)
  {
    hide Before, At, Decode;
    forall t: TID | IsEntry(s, t, id) ensures !Before(s, t, i + 1, 0) {
      LiveBelow(s, t, i, n);
    }
  }

  lemma EncodeSize(v: SegmentT)
    ensures |v.Encode()| == v.Size() == |v.name| + 9
  {
  }
}
