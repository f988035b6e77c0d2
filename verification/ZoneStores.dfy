/** src/DnsPro/ZoneStore.cpp. Each public operation runs under the store's lock
    and is one atomic step here. */
module ZoneStores {
  import opened Packet
  import opened CanonicalName
  import opened ZoneList
  import opened ZoneIndex

  class ZoneStore {
    var records: Index
    var recordCount: nat
    // The records in insertion order.
    ghost var contents: Zone

    ghost predicate Valid()
      reads this
    {
      Represents(records, contents) && recordCount == |contents| && recordCount == Count(records)
    }

    constructor ()
      ensures Valid() && contents == []
    {
      records := map[];
      recordCount := 0;
      contents := [];
    }

    method AddRecord(record: ResourceRecord)
      requires Valid()
      modifies this
      ensures Valid() && contents == Apply(old(contents), Add(record)) == old(contents) + [record]
      ensures records == Updated(old(records), Add(record))
    {
      var key := Canonicalize(record.name);
      var typeMap: TypeMap := if key in records then records[key] else map[];
      var bucket := if record.rtype in typeMap then typeMap[record.rtype] else [];
      WriteRefines(records, contents, Add(record));
      records := records[key := typeMap[record.rtype := bucket + [record]]];
      recordCount := recordCount + 1;
      contents := contents + [record];
    }

    method RemoveRecord(name: Name, rtype: u16) returns (removed: bool)
      requires Valid()
      modifies this
      ensures Valid() && contents == Apply(old(contents), Remove(name, rtype))
      ensures records == Updated(old(records), Remove(name, rtype))
      ensures Spared(old(contents), name, rtype, contents)
      ensures removed <==> HasRecordFor(old(contents), name, rtype)
      ensures !removed ==> unchanged(this)
    {
      var key := Canonicalize(name);
      RemovalRefines(records, contents, name, rtype);
      hide Represents, Count, Without, KeyOf, Spared, HasRecordFor;
      if key !in records { return false; }
      var typeMap: TypeMap := records[key];
      if rtype !in typeMap { return false; }
      recordCount := recordCount - |typeMap[rtype]|;
      typeMap := typeMap - {rtype};
      if typeMap == map[] {
        records := records - {key};
      } else {
        records := records[key := typeMap];
      }
      contents := Without(contents, key, rtype);
      return true;
    }

    method Lookup(name: Name, rtype: u16) returns (matches: seq<ResourceRecord>)
      requires Valid()
      ensures matches == Bucket(contents, KeyOf(name.labels), rtype)
      ensures Found(contents, name, rtype, matches)
    {
      var key := Canonicalize(name);
      BucketIsFound(contents, name, rtype, Bucket(contents, key, rtype));
      assert Entries(TypesOf(records, key), rtype) == Bucket(contents, key, rtype);
      if key !in records { return []; }
      var typeMap: TypeMap := records[key];
      if rtype !in typeMap { return []; }
      return typeMap[rtype];
    }

    method Contains(name: Name, rtype: u16) returns (found: bool)
      requires Valid()
      ensures found <==> HasRecordFor(contents, name, rtype)
    {
      var key := Canonicalize(name);
      assert Entries(TypesOf(records, key), rtype) == Bucket(contents, key, rtype);
      BucketIsForRecords(contents, name, rtype);
      if key !in records { return false; }
      return rtype in records[key];
    }

    method HasName(name: Name) returns (found: bool)
      requires Valid()
      ensures found <==> NameExists(contents, KeyOf(name.labels))
      ensures found <==> HasNameOf(contents, name)
    {
      NameExistsIff(contents, name);
      var key := Canonicalize(name);
      KeysAreNames(records, contents);
      return key in records;
    }

    method Clear()
      requires Valid()
      modifies this
      ensures Valid() && contents == Apply(old(contents), Write.Clear) == []
      ensures records == Updated(old(records), Write.Clear)
    {
      records := map[];
      recordCount := 0;
      contents := [];
    }

    method RecordCount() returns (count: nat)
      requires Valid()
      ensures count == |contents|
    {
      return recordCount;
    }
  }
}
