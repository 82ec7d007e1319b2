/**
 * A stored campsite (`recyoself.models.campsite.Campsite`) and its `combined_type` label.
 * The display form of the campsite type (`pretty_name`) is left uninterpreted: it is a
 * parameter `prettyName` applied to the stored type value.
 */
module CampsiteModels {
  import opened Wrappers
  import opened Strings

  datatype UseType = Overnight | Day | Multi

  datatype Campsite = Campsite(
    name: string,
    loop: Option<string>,
    campsiteId: int,
    typeValue: string,
    electric: bool,
    groupSite: bool,
    use: UseType,
    facilityId: int)

  function GroupPrefix(c: Campsite): string {
    if c.groupSite then "Group " else ""
  }

  function ElectricSuffix(c: Campsite): string {
    if c.electric then ", Electric" else ", Non-Electric"
  }

  /** `combined_type`: an optional `Group ` prefix, the type's display name, then the power. */
  function CombinedType(c: Campsite, prettyName: string -> string): (s: string)
    ensures StartsWith(s, GroupPrefix(c)) && EndsWith(s, ElectricSuffix(c))
    ensures |s| == |GroupPrefix(c)| + |prettyName(c.typeValue)| + |ElectricSuffix(c)|
    ensures s[|GroupPrefix(c)|..|s| - |ElectricSuffix(c)|] == prettyName(c.typeValue)
  {
    GroupPrefix(c) + prettyName(c.typeValue) + ElectricSuffix(c)
  }

  /**
   * The label starts with `Group ` exactly for group sites (the display name itself
   * not starting with `Group `), and ends with `, Electric` exactly for electric sites,
   * otherwise with `, Non-Electric`.
   */
  lemma CombinedTypeFlags(c: Campsite, prettyName: string -> string)
    requires !StartsWith(prettyName(c.typeValue), "Group ")
    ensures StartsWith(CombinedType(c, prettyName), "Group ") <==> c.groupSite
    ensures EndsWith(CombinedType(c, prettyName), ", Electric") <==> c.electric
    ensures !c.electric ==> EndsWith(CombinedType(c, prettyName), ", Non-Electric")
  {
    var p := prettyName(c.typeValue);
    if !c.groupSite {
      NotGroupPrefix(p, ElectricSuffix(c));
    }
    if !c.electric {
      NonElectricSuffix(GroupPrefix(c) + p);
    }
  }

  lemma NotGroupPrefix(p: string, suffix: string)
    requires |suffix| >= 1 && suffix[0] == ','
    requires !StartsWith(p, "Group ")
    ensures !StartsWith(p + suffix, "Group ")
  {
    if |p| >= 6 {
      assert (p + suffix)[..6] == p[..6];
    } else {
      assert (p + suffix)[|p|] == ',';
      assert "Group "[|p|] != ',';
    }
  }

  lemma NonElectricSuffix(x: string)
    ensures !EndsWith(x + ", Non-Electric", ", Electric")
  {
    var s := x + ", Non-Electric";
    assert s[|s| - 10..] == "n-Electric";
  }

  /** The label reads only the type, the group flag and the power flag. */
  lemma CombinedTypeDependsOnTypeAndFlags(c1: Campsite, c2: Campsite, prettyName: string -> string)
    requires c1.typeValue == c2.typeValue && c1.electric == c2.electric && c1.groupSite == c2.groupSite
    ensures CombinedType(c1, prettyName) == CombinedType(c2, prettyName)
  {
  }
}
