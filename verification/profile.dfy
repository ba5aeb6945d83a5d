/**
 The profile choice in `getPuterToken`: the CLI's config holds a list of
 profiles and the uuid of the selected one; the server takes the first
 profile whose uuid is strictly equal (`===`) to the selected uuid, falling
 back to the first profile. A field read from the parsed config is absent
 (`undefined`), `null` or a string, and `===` tells all three apart: two
 absent fields are equal, two nulls are equal, but a null never equals an
 absent field.
 */
module Profile {
  import opened Wrappers

  /** A config field after `JSON.parse`: `===` on these values is datatype equality. */
  datatype Field = Undefined | Null | Str(text: string)

  datatype ProfileEntry = ProfileEntry(uuid: Field, token: Field)

  /** The position of the first profile whose uuid is `selected`, if any (`Array.prototype.find`). */
  function FirstMatch(profiles: seq<ProfileEntry>, selected: Field): (r: Option<nat>)
    ensures r.Some? ==> r.value < |profiles| && profiles[r.value].uuid == selected
    ensures r.Some? ==> forall j | 0 <= j < r.value :: profiles[j].uuid != selected
    ensures r.None? <==> forall j | 0 <= j < |profiles| :: profiles[j].uuid != selected
    decreases |profiles|
  {
    if |profiles| == 0 then None
    else if profiles[0].uuid == selected then Some(0)
    else
      match FirstMatch(profiles[1..], selected)
      case None => None
      case Some(i) => Some(i + 1)
  }

  /**
   The profile `getPuterToken` reads the token from: the first matching
   profile, else the first profile; no profile at all when the list is empty.
   */
  method SelectProfile(profiles: seq<ProfileEntry>, selected: Field) returns (index: Option<nat>)
    ensures index.None? <==> |profiles| == 0
    ensures index.Some? ==> index.value < |profiles|
    ensures index.Some? && profiles[index.value].uuid != selected ==>
              index.value == 0 && forall j | 0 <= j < |profiles| :: profiles[j].uuid != selected
    ensures index.Some? && profiles[index.value].uuid == selected ==>
              forall j | 0 <= j < index.value :: profiles[j].uuid != selected
    ensures index.Some? ==> profiles[index.value].token == SelectedToken(profiles, selected)
  {
    if |profiles| == 0 {
      return None;
    }
    var i := 0;
    while i < |profiles|
      invariant 0 <= i <= |profiles|
      invariant forall j | 0 <= j < i :: profiles[j].uuid != selected
    {
      if profiles[i].uuid == selected {
        return Some(i);
      }
      i := i + 1;
    }
    return Some(0);
  }

  /**
   The value `getPuterToken` returns: `null` when there is no profile,
   otherwise the chosen profile's token field as it stands (possibly absent).
   */
  function SelectedToken(profiles: seq<ProfileEntry>, selected: Field): (token: Field)
    ensures |profiles| == 0 ==> token == Null
    ensures |profiles| > 0 ==> exists j | 0 <= j < |profiles| :: profiles[j].token == token
  {
    if |profiles| == 0 then Null
    else
      match FirstMatch(profiles, selected)
      case Some(i) => profiles[i].token
      case None => profiles[0].token
  }

  /** A selected profile wins wherever it sits in the list; without one, the first profile is used. */
  lemma SelectedProfileWins(before: seq<ProfileEntry>, chosen: ProfileEntry, after: seq<ProfileEntry>, selected: Field)
    requires chosen.uuid == selected
    requires forall j | 0 <= j < |before| :: before[j].uuid != selected
    ensures SelectedToken(before + [chosen] + after, selected) == chosen.token
  {
    var profiles := before + [chosen] + after;
    assert profiles[|before|] == chosen;
    forall j | 0 <= j < |before| ensures profiles[j].uuid != selected {
      assert profiles[j] == before[j];
    }
  }

  /** Without a matching profile the first one is used, whatever follows it. */
  lemma FirstProfileFallback(first: ProfileEntry, rest: seq<ProfileEntry>, selected: Field)
    requires first.uuid != selected
    requires forall j | 0 <= j < |rest| :: rest[j].uuid != selected
    ensures SelectedToken([first] + rest, selected) == first.token
  {
    var profiles := [first] + rest;
    forall j | 0 <= j < |profiles| ensures profiles[j].uuid != selected {
      if j > 0 {
        assert profiles[j] == rest[j - 1];
      }
    }
  }

  /**
   A `null` selection matches no profile that lacks a uuid, so it falls back
   to the first profile; an absent selection matches the first profile that
   lacks a uuid.
   */
  lemma NullIsNotUndefined(uuid: string, t1: string, t2: string)
    ensures SelectedToken([ProfileEntry(Str(uuid), Str(t1)), ProfileEntry(Undefined, Str(t2))], Null) == Str(t1)
    ensures SelectedToken([ProfileEntry(Str(uuid), Str(t1)), ProfileEntry(Undefined, Str(t2))], Undefined) == Str(t2)
  {
    var profiles := [ProfileEntry(Str(uuid), Str(t1)), ProfileEntry(Undefined, Str(t2))];
    FirstProfileFallback(profiles[0], profiles[1..], Null);
    assert [profiles[0]] + profiles[1..] == profiles;
    SelectedProfileWins(profiles[..1], profiles[1], [], Undefined);
    assert profiles[..1] + [profiles[1]] + [] == profiles;
  }
}
