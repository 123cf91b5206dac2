/**
 * The saved remote-server profiles: a list kept free of duplicate names by AddProfile, with at
 * most one name marked as the default by SetDefault. Loading and saving the file are not part
 * of this model.
 */
module Profiles {
  import opened Wrappers

  datatype ServerProfile = ServerProfile(
    name: string, url: string, authToken: string, skipSsl: bool,
    isDefault: bool, lastUsed: string, lastStatus: string)

  /** Index of the first profile with this name, or -1. */
  function IndexOfName(ps: seq<ServerProfile>, name: string): (i: int)
    ensures -1 <= i < |ps|
    ensures i >= 0 ==> ps[i].name == name && forall j :: 0 <= j < i ==> ps[j].name != name
    ensures i < 0 ==> forall j :: 0 <= j < |ps| ==> ps[j].name != name
  {
    if ps == [] then -1
    else if ps[0].name == name then 0
    else
      var k := IndexOfName(ps[1..], name);
      if k < 0 then -1 else k + 1
  }

  ghost predicate UniqueNames(ps: seq<ServerProfile>)
  {
    forall i, j :: 0 <= i < j < |ps| ==> ps[i].name != ps[j].name
  }

  class ServerProfiles {
    var profiles: seq<ServerProfile>

    /** No two profiles share a name. */
    ghost predicate Valid()
      reads this
    {
      UniqueNames(profiles)
    }

    constructor ()
      ensures profiles == []
      ensures Valid()
    {
      profiles := [];
    }

    /** AddProfile: replace the first profile with the same name in place, or append. */
    method AddProfile(profile: ServerProfile)
      modifies this
      ensures IndexOfName(old(profiles), profile.name) >= 0 ==>
        profiles == old(profiles)[IndexOfName(old(profiles), profile.name) := profile]
      ensures IndexOfName(old(profiles), profile.name) < 0 ==> profiles == old(profiles) + [profile]
      ensures profile in profiles
      ensures old(Valid()) ==> Valid()
    {
      var i := 0;
      while i < |profiles|
        invariant 0 <= i <= |profiles| && profiles == old(profiles)
        invariant forall j :: 0 <= j < i ==> profiles[j].name != profile.name
      {
        if profiles[i].name == profile.name {
          profiles := profiles[i := profile];
          assert profiles[i] == profile;
          return;
        }
        i := i + 1;
      }
      profiles := profiles + [profile];
    }

    /** RemoveProfile: delete the first profile with this name, keeping the others in order. */
    method RemoveProfile(name: string)
      modifies this
      ensures IndexOfName(old(profiles), name) < 0 ==> profiles == old(profiles)
      ensures IndexOfName(old(profiles), name) >= 0 ==>
        var i := IndexOfName(old(profiles), name);
        profiles == old(profiles)[..i] + old(profiles)[i + 1..]
      ensures old(Valid()) ==> Valid() && forall j :: 0 <= j < |profiles| ==> profiles[j].name != name
    {
      var i := 0;
      while i < |profiles|
        invariant 0 <= i <= |profiles| && profiles == old(profiles)
        invariant forall j :: 0 <= j < i ==> profiles[j].name != name
      {
        if profiles[i].name == name {
          ghost var before := profiles;
          profiles := profiles[..i] + profiles[i + 1..];
          forall a | 0 <= a < |profiles| ensures profiles[a] == (if a < i then before[a] else before[a + 1]) {
          }
          return;
        }
        i := i + 1;
      }
    }

    /** GetDefault: the first profile marked as default, or nothing. */
    method GetDefault() returns (r: Option<ServerProfile>)
      ensures r == None <==> forall i :: 0 <= i < |profiles| ==> !profiles[i].isDefault
      ensures r.Some? ==> r.value.isDefault && (exists i :: 0 <= i < |profiles| && profiles[i] == r.value
                                                 && forall j :: 0 <= j < i ==> !profiles[j].isDefault)
    {
      var i := 0;
      while i < |profiles|
        invariant 0 <= i <= |profiles|
        invariant forall j :: 0 <= j < i ==> !profiles[j].isDefault
      {
        if profiles[i].isDefault {
          return Some(profiles[i]);
        }
        i := i + 1;
      }
      return None;
    }

    /** SetDefault: mark exactly the profiles with this name as default. */
    method SetDefault(name: string)
      modifies this
      ensures |profiles| == |old(profiles)|
      ensures forall i :: 0 <= i < |profiles| ==> profiles[i] == old(profiles)[i].(isDefault := old(profiles)[i].name == name)
      ensures forall i :: 0 <= i < |profiles| ==> (profiles[i].isDefault <==> profiles[i].name == name)
      ensures old(Valid()) ==> Valid()
    {
      var i := 0;
      while i < |profiles|
        invariant 0 <= i <= |profiles| && |profiles| == |old(profiles)|
        invariant forall k :: 0 <= k < i ==> profiles[k] == old(profiles)[k].(isDefault := old(profiles)[k].name == name)
        invariant forall k :: i <= k < |profiles| ==> profiles[k] == old(profiles)[k]
      {
        profiles := profiles[i := profiles[i].(isDefault := profiles[i].name == name)];
        i := i + 1;
      }
    }
  }

  /** After marking a name that names a profile, that profile is the first default one. */
  lemma DefaultAfterSetDefault(ps: seq<ServerProfile>, name: string)
    requires forall i :: 0 <= i < |ps| ==> (ps[i].isDefault <==> ps[i].name == name)
    requires IndexOfName(ps, name) >= 0
    ensures var i := IndexOfName(ps, name);
      ps[i].isDefault && forall j :: 0 <= j < i ==> !ps[j].isDefault
  {
  }
}
