/** The offset catalog: every timezone name whose current UTC offset could be
    resolved, mapped to that offset in seconds (positive east of UTC).

    The timezone database and the clock are not modelled: the caller hands in
    one `ZoneEntry` per name the database lists, carrying `Some(offset)` when
    resolving the zone at the current instant succeeded and `None` when it
    raised. The catalog is an insertion-ordered dictionary, as a Python dict
    is: `names` is the key order, `offsets` the contents. */
module OffsetCatalog {

  import opened Wrappers

  datatype ZoneEntry = ZoneEntry(name: string, offset: Option<int>)

  datatype Catalog = Catalog(names: seq<string>, offsets: map<string, int>) {

    /** The key order lists each key of the dictionary exactly once. */
    ghost predicate Valid() {
      && (forall i, j :: 0 <= i < j < |names| ==> names[i] != names[j])
      && (forall n :: n in offsets <==> n in names)
    }
  }

  /** Assigning `offsets[name] = o`: a new key goes to the end of the key
      order, an existing key keeps its place and takes the new value. */
  function Store(c: Catalog, name: string, o: int): (r: Catalog)
    requires c.Valid()
    ensures r.Valid()
    ensures r.offsets == c.offsets[name := o]
    ensures name in c.offsets ==> r.names == c.names
    ensures name !in c.offsets ==> r.names == c.names + [name]
  {
    if name in c.offsets then Catalog(c.names, c.offsets[name := o])
    else Catalog(c.names + [name], c.offsets[name := o])
  }

  /** One pass of the loop body: a resolved zone is stored, a failed one skipped. */
  function Record(c: Catalog, z: ZoneEntry): (r: Catalog)
    requires c.Valid()
    ensures r.Valid()
  {
    match z.offset
    case None => c
    case Some(o) => Store(c, z.name, o)
  }

  /** The catalog after the loop has visited `zones` in order. */
  function CatalogOf(zones: seq<ZoneEntry>): (c: Catalog)
    ensures c.Valid()
    decreases |zones|
  {
    if zones == [] then Catalog([], map[])
    else Record(CatalogOf(zones[..|zones| - 1]), zones[|zones| - 1])
  }

  /** The names of the zones that resolved, in the order they were visited. */
  function ResolvedNames(zones: seq<ZoneEntry>): seq<string>
    decreases |zones|
  {
    if zones == [] then []
    else
      var z := zones[|zones| - 1];
      ResolvedNames(zones[..|zones| - 1]) + (if z.offset.Some? then [z.name] else [])
  }

  /** The database lists each name once (it hands out a set of names). */
  predicate DistinctNames(zones: seq<ZoneEntry>) {
    forall i, j :: 0 <= i < j < |zones| ==> zones[i].name != zones[j].name
  }

  /** A name is in the catalog exactly when some entry of that name resolved. */
  lemma {:induction false} CatalogKeys(zones: seq<ZoneEntry>, name: string)
    ensures name in CatalogOf(zones).offsets <==>
            exists i :: 0 <= i < |zones| && zones[i].name == name && zones[i].offset.Some?
    decreases |zones|
  {
    if zones != [] {
      var front := zones[..|zones| - 1];
      CatalogKeys(front, name);
      if name in CatalogOf(front).offsets {
        var i :| 0 <= i < |front| && front[i].name == name && front[i].offset.Some?;
        assert zones[i] == front[i];
      }
      if exists i :: 0 <= i < |zones| && zones[i].name == name && zones[i].offset.Some? {
        var i :| 0 <= i < |zones| && zones[i].name == name && zones[i].offset.Some?;
        if i < |front| {
          assert front[i] == zones[i];
        }
      }
    }
  }

  /** With distinct names, every resolved zone is mapped to its own offset. */
  lemma {:induction false} CatalogValues(zones: seq<ZoneEntry>, i: nat)
    requires DistinctNames(zones)
    requires i < |zones| && zones[i].offset.Some?
    ensures zones[i].name in CatalogOf(zones).offsets
    ensures CatalogOf(zones).offsets[zones[i].name] == zones[i].offset.value
    decreases |zones|
  {
    var front := zones[..|zones| - 1];
    if i < |front| {
      assert front[i] == zones[i];
      assert DistinctNames(front);
      CatalogValues(front, i);
      assert zones[|zones| - 1].name != zones[i].name;
    }
  }

  /** With distinct names, the key order is the order in which zones resolved. */
  lemma {:induction false} CatalogOrder(zones: seq<ZoneEntry>)
    requires DistinctNames(zones)
    ensures CatalogOf(zones).names == ResolvedNames(zones)
    decreases |zones|
  {
    if zones != [] {
      var front := zones[..|zones| - 1];
      var z := zones[|zones| - 1];
      assert DistinctNames(front);
      CatalogOrder(front);
      if z.offset.Some? {
        forall i | 0 <= i < |front| ensures front[i].name != z.name {
          assert front[i] == zones[i];
        }
        CatalogKeys(front, z.name);
      }
    }
  }

  /** The catalog is empty exactly when no zone resolved. */
  lemma CatalogEmpty(zones: seq<ZoneEntry>)
    ensures CatalogOf(zones).offsets == map[] <==>
            forall i :: 0 <= i < |zones| ==> zones[i].offset.None?
  {
    var c := CatalogOf(zones);
    if c.offsets != map[] {
      var name :| name in c.offsets;
      CatalogKeys(zones, name);
    }
    if exists i :: 0 <= i < |zones| && zones[i].offset.Some? {
      var i :| 0 <= i < |zones| && zones[i].offset.Some?;
      CatalogKeys(zones, zones[i].name);
    }
  }

  /** `get_timezone_offsets`: visit every zone, store each resolved offset
      under its name and skip the zones that failed. It never fails. */
  method GetTimezoneOffsets(zones: seq<ZoneEntry>) returns (c: Catalog)
    ensures c == CatalogOf(zones) && c.Valid()
    ensures forall name :: name in c.offsets <==>
              exists i :: 0 <= i < |zones| && zones[i].name == name && zones[i].offset.Some?
    ensures DistinctNames(zones) ==>
              forall i :: 0 <= i < |zones| && zones[i].offset.Some? ==>
                zones[i].name in c.offsets && c.offsets[zones[i].name] == zones[i].offset.value
  {
    var names: seq<string> := [];
    var offsets: map<string, int> := map[];
    for k := 0 to |zones|
      invariant Catalog(names, offsets) == CatalogOf(zones[..k])
    {
      assert zones[..k + 1][..k] == zones[..k];
      var z := zones[k];
      match z.offset {
        case None =>
          continue;
        case Some(o) =>
          if z.name !in offsets {
            names := names + [z.name];
          }
          offsets := offsets[z.name := o];
      }
    }
    assert zones[..|zones|] == zones;
    c := Catalog(names, offsets);
    forall name
      ensures name in c.offsets <==>
              exists i :: 0 <= i < |zones| && zones[i].name == name && zones[i].offset.Some?
    {
      CatalogKeys(zones, name);
    }
    if DistinctNames(zones) {
      forall i | 0 <= i < |zones| && zones[i].offset.Some?
        ensures zones[i].name in c.offsets && c.offsets[zones[i].name] == zones[i].offset.value
      {
        CatalogValues(zones, i);
      }
    }
  }
}
