/**
 * The RIDB export loader (`recyoself.ridb`): reading a campsite type label, the "has this
 * export changed" decision over stored checksums, which facility rows are kept, and the
 * record count of an export file. Files, hashing and the database are left out: a file's
 * checksum is an opaque string, its rows are given, and the stored `EntityChecksum` rows are a
 * map from entity name to checksum.
 */
module Ridb {
  import opened Wrappers
  import opened Strings
  import opened Timeline

  // ---------------------------------------------------------------------------
  // `_parse_campsite_type`
  // ---------------------------------------------------------------------------

  /** The result of `_parse_campsite_type`: `(type, electric, group_site)`. */
  datatype CampsiteType = CampsiteType(typeName: string, electric: bool, groupSite: bool)

  predicate IsElectricToken(t: string) {
    t == "ELECTRIC" || t == "NONELECTRIC"
  }

  /** Python's `list.remove(x)`: the list without its first `x`. */
  function RemoveFirst(s: seq<string>, x: string): seq<string>
    requires x in s
  {
    if s[0] == x then s[1..] else [s[0]] + RemoveFirst(s[1..], x)
  }

  /** `remove` drops exactly the first occurrence and keeps the rest in order. */
  lemma {:induction false} RemoveFirstAt(s: seq<string>, x: string) returns (i: nat)
    requires x in s
    ensures i < |s| && s[i] == x && x !in s[..i] && RemoveFirst(s, x) == s[..i] + s[i + 1..]
  {
    if s[0] == x {
      i := 0;
      assert s[..0] == [] && s[1..] == s[0 + 1..];
    } else {
      var t := s[1..];
      assert x in t;
      var j := RemoveFirstAt(t, x);
      i := j + 1;
      assert s[..i] == [s[0]] + t[..j];
      assert s[i + 1..] == t[j + 1..];
      assert RemoveFirst(s, x) == [s[0]] + RemoveFirst(t, x);
    }
  }

  lemma {:induction false} RemoveFirstCount(s: seq<string>, x: string)
    requires x in s
    ensures multiset(RemoveFirst(s, x)) == multiset(s) - multiset{x}
  {
    assert s == [s[0]] + s[1..];
    if s[0] != x {
      RemoveFirstCount(s[1..], x);
    }
  }

  lemma {:induction false} RemoveFirstSubsequence(s: seq<string>, x: string)
    requires x in s
    ensures IsSubsequence(RemoveFirst(s, x), s)
  {
    var r := RemoveFirst(s, x);
    if s[0] == x {
      SubsequenceRefl(s[1..]);
      SubsequenceDropHead(s[1..], s);
    } else {
      RemoveFirstSubsequence(s[1..], x);
      assert r[0] == s[0] && r[1..] == RemoveFirst(s[1..], x);
    }
  }

  lemma RemoveFirstSpec(s: seq<string>, x: string)
    requires x in s
    ensures exists i :: 0 <= i < |s| && s[i] == x && x !in s[..i] && RemoveFirst(s, x) == s[..i] + s[i + 1..]
    ensures multiset(RemoveFirst(s, x)) == multiset(s) - multiset{x}
    ensures IsSubsequence(RemoveFirst(s, x), s)
  {
    var i := RemoveFirstAt(s, x);
    RemoveFirstCount(s, x);
    RemoveFirstSubsequence(s, x);
  }

  /** The tokens left once a trailing `ELECTRIC` or `NONELECTRIC` is popped. */
  function CoreTokens(parts: seq<string>): seq<string>
    requires |parts| >= 1
  {
    if IsElectricToken(parts[|parts| - 1]) then parts[..|parts| - 1] else parts
  }

  /** The tokens left once a leading `GROUP` is deleted and then, unless `STANDARD AREA`, the first `AREA`. */
  function KeptTokens(core: seq<string>): seq<string>
    requires |core| >= 1
  {
    if core[0] == "GROUP" then
      var rest := core[1..];
      if "AREA" in rest && rest != ["STANDARD", "AREA"] then RemoveFirst(rest, "AREA") else rest
    else core
  }

  /**
   * `_parse_campsite_type`: the type text is split on single spaces; a trailing electric token
   * decides `electric` and is popped; a leading `GROUP` decides `group_site` and is deleted,
   * taking an `AREA` with it; an empty token list fails at `type_parts[0]`.
   */
  method ParseCampsiteType(typeStr: string) returns (r: Result<CampsiteType>)
    ensures var parts := Split(typeStr, ' ');
      && (r.Failure? <==> CoreTokens(parts) == [])
      && (r.Failure? ==> r.error == IndexError)
      && (r.Success? ==>
        && (r.value.electric <==> parts[|parts| - 1] == "ELECTRIC")
        && (r.value.groupSite <==> CoreTokens(parts)[0] == "GROUP")
        && r.value.typeName == Join(KeptTokens(CoreTokens(parts)), ' '))
  {
    var electric := false;
    var groupSite := false;
    var typeParts := Split(typeStr, ' ');

    if typeParts[|typeParts| - 1] == "ELECTRIC" || typeParts[|typeParts| - 1] == "NONELECTRIC" {
      electric := typeParts[|typeParts| - 1] == "ELECTRIC";
      typeParts := typeParts[..|typeParts| - 1];
    }

    if |typeParts| == 0 {
      return Failure(IndexError);
    }
    if typeParts[0] == "GROUP" {
      groupSite := true;
      typeParts := typeParts[1..];
      if "AREA" in typeParts && typeParts != ["STANDARD", "AREA"] {
        typeParts := RemoveFirst(typeParts, "AREA");
      }
    }
    return Success(CampsiteType(Join(typeParts, ' '), electric, groupSite));
  }

  /** Only a type that is nothing but `ELECTRIC` or `NONELECTRIC` leaves no token, so it fails. */
  lemma OnlyElectricTokenFails(typeStr: string)
    ensures CoreTokens(Split(typeStr, ' ')) == [] <==> typeStr == "ELECTRIC" || typeStr == "NONELECTRIC"
  {
    var parts := Split(typeStr, ' ');
    if CoreTokens(parts) == [] {
      assert |parts| == 1 && IsElectricToken(parts[0]);
      JoinSplit(typeStr, ' ');
    }
    if typeStr == "ELECTRIC" || typeStr == "NONELECTRIC" {
      SplitWithoutSeparator(typeStr, ' ');
    }
  }

  /**
   * Without a leading `GROUP` every token but a trailing electric one is kept, `AREA`
   * included; with it, `GROUP` goes and so does the first `AREA`, except in `STANDARD AREA`.
   */
  lemma AreaRule(core: seq<string>)
    requires |core| >= 1
    ensures core[0] != "GROUP" ==> KeptTokens(core) == core
    ensures core[0] == "GROUP" && core[1..] == ["STANDARD", "AREA"] ==> KeptTokens(core) == ["STANDARD", "AREA"]
    ensures core[0] == "GROUP" && "AREA" !in core[1..] ==> KeptTokens(core) == core[1..]
    ensures core[0] == "GROUP" && "AREA" in core[1..] && core[1..] != ["STANDARD", "AREA"] ==>
      multiset(KeptTokens(core)) == multiset(core[1..]) - multiset{"AREA"} &&
      exists i :: 0 <= i < |core| - 1 && core[1..][i] == "AREA" && "AREA" !in core[1..][..i] &&
        KeptTokens(core) == core[1..][..i] + core[1..][i + 1..]
  {
    if core[0] == "GROUP" && "AREA" in core[1..] && core[1..] != ["STANDARD", "AREA"] {
      RemoveFirstSpec(core[1..], "AREA");
    }
  }

  lemma PrefixSubsequence(s: seq<string>, n: nat)
    requires n <= |s|
    ensures IsSubsequence(s[..n], s)
    decreases |s|
  {
    if n == |s| {
      assert s[..n] == s;
      SubsequenceRefl(s);
    } else if n > 0 {
      PrefixSubsequence(s[1..], n - 1);
      assert s[..n][1..] == s[1..][..n - 1];
    }
  }

  /** The token the electric step pops, if any. */
  function ElectricDropped(parts: seq<string>): multiset<string>
    requires |parts| >= 1
  {
    if IsElectricToken(parts[|parts| - 1]) then multiset{parts[|parts| - 1]} else multiset{}
  }

  /** The tokens the group step deletes, if any. */
  function GroupDropped(core: seq<string>): multiset<string>
    requires |core| >= 1
  {
    if core[0] != "GROUP" then multiset{}
    else if "AREA" in core[1..] && core[1..] != ["STANDARD", "AREA"] then multiset{"GROUP", "AREA"}
    else multiset{"GROUP"}
  }

  lemma CoreTokensSubsequence(parts: seq<string>)
    requires |parts| >= 1
    ensures IsSubsequence(CoreTokens(parts), parts)
  {
    var n := |parts| - 1;
    if IsElectricToken(parts[n]) {
      PrefixSubsequence(parts, n);
    } else {
      SubsequenceRefl(parts);
    }
  }

  lemma CoreTokensCount(parts: seq<string>)
    requires |parts| >= 1
    ensures multiset(parts) == multiset(CoreTokens(parts)) + ElectricDropped(parts)
  {
    var n := |parts| - 1;
    if IsElectricToken(parts[n]) {
      assert parts == parts[..n] + [parts[n]];
    }
  }

  lemma KeptTokensSubsequence(core: seq<string>)
    requires |core| >= 1
    ensures IsSubsequence(KeptTokens(core), core)
  {
    if core[0] == "GROUP" {
      var rest := core[1..];
      SubsequenceRefl(rest);
      SubsequenceDropHead(rest, core);
      if "AREA" in rest && rest != ["STANDARD", "AREA"] {
        RemoveFirstSubsequence(rest, "AREA");
        SubsequenceTrans(KeptTokens(core), rest, core);
      }
    } else {
      SubsequenceRefl(core);
    }
  }

  lemma KeptTokensCount(core: seq<string>)
    requires |core| >= 1
    ensures multiset(core) == multiset(KeptTokens(core)) + GroupDropped(core)
  {
    if core[0] == "GROUP" {
      var rest := core[1..];
      assert core == [core[0]] + rest;
      if "AREA" in rest && rest != ["STANDARD", "AREA"] {
        RemoveFirstCount(rest, "AREA");
      }
    }
  }

  lemma DroppedTokens(parts: seq<string>)
    requires |parts| >= 1 && CoreTokens(parts) != []
    ensures var dropped := GroupDropped(CoreTokens(parts)) + ElectricDropped(parts);
      && |dropped| <= 3
      && forall t :: t in dropped ==> t in {"ELECTRIC", "NONELECTRIC", "GROUP", "AREA"}
  {
    var g, e := GroupDropped(CoreTokens(parts)), ElectricDropped(parts);
    assert |g| <= 2 && forall t :: t in g ==> t == "GROUP" || t == "AREA";
    assert |e| <= 1 && forall t :: t in e ==> t == "ELECTRIC" || t == "NONELECTRIC";
  }

  /**
   * The kept tokens are the split tokens in their original order with at most three dropped,
   * and every dropped token is `ELECTRIC`, `NONELECTRIC`, `GROUP` or `AREA`.
   */
  lemma KeptTokensOrder(parts: seq<string>)
    requires |parts| >= 1 && CoreTokens(parts) != []
    ensures var kept := KeptTokens(CoreTokens(parts));
      && IsSubsequence(kept, parts)
      && multiset(kept) <= multiset(parts)
      && |parts| - |kept| <= 3
      && forall t :: t in multiset(parts) - multiset(kept) ==> t in {"ELECTRIC", "NONELECTRIC", "GROUP", "AREA"}
  {
    var core := CoreTokens(parts);
    var kept := KeptTokens(core);
    CoreTokensSubsequence(parts);
    KeptTokensSubsequence(core);
    SubsequenceTrans(kept, core, parts);
    CoreTokensCount(parts);
    KeptTokensCount(core);
    DroppedTokens(parts);
    var dropped := GroupDropped(core) + ElectricDropped(parts);
    assert multiset(parts) == multiset(kept) + dropped;
    assert multiset(parts) - multiset(kept) == dropped;
    assert |multiset(parts)| == |multiset(kept)| + |dropped|;
  }

  /** A type with no trailing electric token and no leading `GROUP` keeps its text unchanged. */
  lemma PlainTypeUnchanged(typeStr: string)
    requires var parts := Split(typeStr, ' '); !IsElectricToken(parts[|parts| - 1]) && parts[0] != "GROUP"
    ensures Join(KeptTokens(CoreTokens(Split(typeStr, ' '))), ' ') == typeStr
  {
    JoinSplit(typeStr, ' ');
  }

  // ---------------------------------------------------------------------------
  // Stored checksums, `make_facilities` and `_get_num_records_csv`
  // ---------------------------------------------------------------------------

  /** One row of the facilities export, with the columns `make_facilities` reads. */
  datatype FacilityRow = FacilityRow(
    facilityName: string,
    facilityId: string,
    facilityTypeDescription: string,
    orgFacilityId: string,
    parentRecAreaId: string)

  /** A facility as `make_facilities` yields it; the organisation and area are referenced by id. */
  datatype Facility = Facility(name: string, facilityId: string, kind: string, orgId: string, recAreaId: Option<string>)

  /** The rows `make_facilities` does not skip: a non-empty name and a known organisation. */
  function Importable(orgIds: set<string>): FacilityRow -> bool {
    (row: FacilityRow) => row.facilityName != "" && row.orgFacilityId in orgIds
  }

  /** The facility a kept row yields; the area is looked up only for a non-empty id. */
  function ToFacility(row: FacilityRow, recAreaIds: set<string>): Facility {
    var recArea := if row.parentRecAreaId != "" && row.parentRecAreaId in recAreaIds then Some(row.parentRecAreaId) else None;
    Facility(row.facilityName, row.facilityId, row.facilityTypeDescription, row.orgFacilityId, recArea)
  }

  /** The facilities of an export: the importable rows, in file order, each converted. */
  function FacilitiesOf(rows: seq<FacilityRow>, orgIds: set<string>, recAreaIds: set<string>): seq<Facility> {
    var kept := Select(rows, Importable(orgIds));
    seq(|kept|, k requires 0 <= k < |kept| => ToFacility(kept[k], recAreaIds))
  }

  /**
   * Every facility has a name and a known organisation and comes from a row of the export;
   * every row with a name and a known organisation gives one.
   */
  lemma FacilitiesOfMembers(rows: seq<FacilityRow>, orgIds: set<string>, recAreaIds: set<string>)
    ensures forall f :: f in FacilitiesOf(rows, orgIds, recAreaIds) ==>
      f.name != "" && f.orgId in orgIds && exists row :: row in rows && f == ToFacility(row, recAreaIds)
    ensures forall row :: row in rows && row.facilityName != "" && row.orgFacilityId in orgIds ==>
      ToFacility(row, recAreaIds) in FacilitiesOf(rows, orgIds, recAreaIds)
    ensures |FacilitiesOf(rows, orgIds, recAreaIds)| <= |rows|
  {
    var kept := Select(rows, Importable(orgIds));
    var fs := FacilitiesOf(rows, orgIds, recAreaIds);
    SelectMembers(rows, Importable(orgIds));
    forall f | f in fs
      ensures f.name != "" && f.orgId in orgIds && exists row :: row in rows && f == ToFacility(row, recAreaIds)
    {
      var k :| 0 <= k < |fs| && fs[k] == f;
      assert kept[k] in kept;
    }
    forall row | row in rows && row.facilityName != "" && row.orgFacilityId in orgIds
      ensures ToFacility(row, recAreaIds) in fs
    {
      assert row in kept;
      var k :| 0 <= k < |kept| && kept[k] == row;
      assert fs[k] == ToFacility(row, recAreaIds);
    }
  }

  lemma FacilitiesOfStep(rows: seq<FacilityRow>, orgIds: set<string>, recAreaIds: set<string>, i: nat)
    requires i < |rows|
    ensures FacilitiesOf(rows[..i + 1], orgIds, recAreaIds) ==
      FacilitiesOf(rows[..i], orgIds, recAreaIds)
      + (if Importable(orgIds)(rows[i]) then [ToFacility(rows[i], recAreaIds)] else [])
  {
    assert rows[..i + 1] == rows[..i] + [rows[i]];
    SelectConcat(rows[..i], [rows[i]], Importable(orgIds));
    assert [rows[i]][1..] == [];
  }

  /** `_get_num_records_csv`: the rows `csv.reader` reads, less the header. */
  function NumRecordsCsv(rows: seq<seq<string>>): int {
    |rows| - 1
  }

  /** A header and `n` records count as `n`; an empty file counts as -1. */
  lemma NumRecordsOfExport(header: seq<string>, records: seq<seq<string>>)
    ensures NumRecordsCsv([header] + records) == |records|
    ensures NumRecordsCsv([]) == -1
  {
  }

  /** The loader's state: the stored checksum (`EntityChecksum.checksum`) of each entity's export. */
  class Ridb {
    var checksums: map<string, string>

    constructor ()
      ensures checksums == map[]
      ensures forall e, c :: IsEntityCsvUpdated(e, c)
    {
      checksums := map[];
    }

    /** `is_entity_csv_updated`, given the checksum of the entity's export file as it is now. */
    function IsEntityCsvUpdated(entity: string, csvChecksum: string): bool
      reads this
    {
      entity !in checksums || csvChecksum != checksums[entity]
    }

    /**
     * `_update_entity_checksum`: inserts or overwrites the entity's stored checksum, so the
     * unchanged file no longer counts as updated; other entities are untouched.
     */
    method UpdateEntityChecksum(entity: string, newChecksum: string)
      modifies this
      ensures checksums == old(checksums)[entity := newChecksum]
      ensures !IsEntityCsvUpdated(entity, newChecksum)
      ensures forall c :: IsEntityCsvUpdated(entity, c) <==> c != newChecksum
      ensures forall e, c :: e != entity ==> IsEntityCsvUpdated(e, c) == old(IsEntityCsvUpdated(e, c))
    {
      checksums := checksums[entity := newChecksum];
    }

    /**
     * `make_facilities`: records the export's checksum, then yields a facility for each row with
     * a name whose organisation is known, in file order.
     */
    method MakeFacilities(rows: seq<FacilityRow>, csvChecksum: string, orgIds: set<string>, recAreaIds: set<string>)
      returns (facilities: seq<Facility>)
      modifies this
      ensures checksums == old(checksums)["Facilities" := csvChecksum]
      ensures facilities == FacilitiesOf(rows, orgIds, recAreaIds)
    {
      UpdateEntityChecksum("Facilities", csvChecksum);
      facilities := [];
      for i := 0 to |rows|
        invariant checksums == old(checksums)["Facilities" := csvChecksum]
        invariant facilities == FacilitiesOf(rows[..i], orgIds, recAreaIds)
      {
        FacilitiesOfStep(rows, orgIds, recAreaIds, i);
        var data := rows[i];
        if data.facilityName == "" {
          continue;
        }
        if data.orgFacilityId !in orgIds {
          continue;
        }
        var recArea: Option<string> := None;
        var recAreaId := data.parentRecAreaId;
        if recAreaId != "" {
          recArea := if recAreaId in recAreaIds then Some(recAreaId) else None;
        }
        facilities := facilities + [Facility(data.facilityName, data.facilityId, data.facilityTypeDescription, data.orgFacilityId, recArea)];
      }
      assert rows[..|rows|] == rows;
    }
  }
}
