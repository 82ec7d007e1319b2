/**
 * A permit's division (`recyoself.models.division.Division`): the fields the matcher and the
 * selection prompts read, its text form and whether it can be booked.
 */
module Divisions {
  import opened Wrappers
  import opened Strings

  datatype Division = Division(
    name: string,
    kind: string,
    divisionId: int,
    district: Option<string>,
    isHidden: bool,
    isActive: bool,
    permitId: int)

  /** The `is_reservable` property. */
  predicate IsReservable(d: Division) {
    !d.isHidden && d.isActive
  }

  /** A hidden division or an inactive one is never reservable; a visible active one is. */
  lemma ReservableIff(d: Division)
    ensures d.isHidden ==> !IsReservable(d)
    ensures !d.isActive ==> !IsReservable(d)
    ensures !d.isHidden && d.isActive ==> IsReservable(d)
  {
  }

  /** `__repr__`: `Division(<type>: <name>)`. */
  function Repr(d: Division): (s: string)
    ensures StartsWith(s, "Division(") && EndsWith(s, ")")
    ensures |s| == |d.kind| + |d.name| + 12
    ensures s[9..9 + |d.kind|] == d.kind && s[9 + |d.kind|..11 + |d.kind|] == ": "
    ensures s[11 + |d.kind|..|s| - 1] == d.name
  {
    "Division(" + d.kind + ": " + d.name + ")"
  }

  /** The first `:` of the text form sits right after the type when the type holds none. */
  lemma ReprFirstColon(d: Division)
    requires ':' !in d.kind
    ensures Repr(d)[9 + |d.kind|] == ':'
    ensures forall j :: 9 <= j < 9 + |d.kind| ==> Repr(d)[j] != ':'
  {
    forall j | 9 <= j < 9 + |d.kind| ensures Repr(d)[j] != ':' {
      assert Repr(d)[j] == d.kind[j - 9];
    }
  }

  /** When types hold no `:`, the text form tells type and name apart. */
  lemma ReprInjective(d1: Division, d2: Division)
    requires ':' !in d1.kind && ':' !in d2.kind
    requires Repr(d1) == Repr(d2)
    ensures d1.kind == d2.kind && d1.name == d2.name
  {
    var s := Repr(d1);
    ReprFirstColon(d1);
    ReprFirstColon(d2);
    var k1 := |d1.kind|;
    assert k1 == |d2.kind|;
    assert d1.kind == s[9..9 + k1];
    assert d1.name == s[11 + k1..|s| - 1];
  }
}
