/**
 * The voice-preset store: a module-level dictionary from user id to that
 * user's list of presets, changed in place by the preset routes
 * (`manage_presets`, `delete_preset`, `use_preset`).
 */
module Presets {
  import opened Wrappers

  type UserId = string

  const DefaultEmotion := "neutral"

  /** One saved preset. Pitch and rate are the parsed form numbers; the id
      and the creation time come from `uuid4` and the clock. */
  datatype Preset = Preset(id: string, name: Option<string>, voiceId: Option<string>,
                           emotion: string, pitch: real, rate: real, createdAt: string)

  /** `[p for p in presets if p['id'] != preset_id]`. */
  function WithoutId(presets: seq<Preset>, id: string): seq<Preset> {
    if presets == [] then []
    else (if presets[0].id != id then [presets[0]] else []) + WithoutId(presets[1..], id)
  }

  /** Deleting removes exactly the presets with the id: none is left, and
      every other preset stays. */
  lemma {:induction false} WithoutIdMeaning(presets: seq<Preset>, id: string)
    ensures |WithoutId(presets, id)| <= |presets|
    ensures forall p :: p in WithoutId(presets, id) <==> p in presets && p.id != id
  {
    if presets != [] {
      WithoutIdMeaning(presets[1..], id);
      assert presets == [presets[0]] + presets[1..];
    }
  }

  /** Filtering distributes over concatenation, so the presets that stay keep
      their order. */
  lemma {:induction false} WithoutIdAppend(a: seq<Preset>, b: seq<Preset>, id: string)
    ensures WithoutId(a + b, id) == WithoutId(a, id) + WithoutId(b, id)
    decreases |a|
  {
    if a == [] {
      assert a + b == b;
    } else {
      assert (a + b)[0] == a[0] && (a + b)[1..] == a[1..] + b;
      WithoutIdAppend(a[1..], b, id);
      var h := if a[0].id != id then [a[0]] else [];
      assert WithoutId(a + b, id) == h + (WithoutId(a[1..], id) + WithoutId(b, id));
      assert WithoutId(a, id) == h + WithoutId(a[1..], id);
    }
  }

  /** A list without the id is left as it is. */
  lemma {:induction false} WithoutAbsentId(presets: seq<Preset>, id: string)
    requires forall k :: 0 <= k < |presets| ==> presets[k].id != id
    ensures WithoutId(presets, id) == presets
  {
    if presets != [] {
      WithoutAbsentId(presets[1..], id);
    }
  }

  /** Deleting twice is deleting once. */
  lemma DeleteIdempotent(presets: seq<Preset>, id: string)
    ensures WithoutId(WithoutId(presets, id), id) == WithoutId(presets, id)
  {
    WithoutIdMeaning(presets, id);
    WithoutAbsentId(WithoutId(presets, id), id);
  }

  /** `next((p for p in presets if p['id'] == preset_id), None)`. */
  function FirstWithId(presets: seq<Preset>, id: string): Option<Preset> {
    if presets == [] then None
    else if presets[0].id == id then Some(presets[0])
    else FirstWithId(presets[1..], id)
  }

  /** The lookup gives the first preset with the id, or none when no preset
      has it. */
  lemma {:induction false} FirstWithIdMeaning(presets: seq<Preset>, id: string)
    ensures var r := FirstWithId(presets, id);
      && (r.None? <==> forall k :: 0 <= k < |presets| ==> presets[k].id != id)
      && (r.Some? ==> exists k :: 0 <= k < |presets| && presets[k] == r.value && r.value.id == id
                                 && forall j :: 0 <= j < k ==> presets[j].id != id)
  {
    if presets != [] && presets[0].id != id {
      var tail := presets[1..];
      FirstWithIdMeaning(tail, id);
      var r := FirstWithId(tail, id);
      if r.Some? {
        var k :| 0 <= k < |tail| && tail[k] == r.value && r.value.id == id
                 && forall j :: 0 <= j < k ==> tail[j].id != id;
        assert presets[k + 1] == r.value;
        assert forall j :: 1 <= j < k + 1 ==> presets[j] == tail[j - 1];
      } else {
        assert forall k :: 1 <= k < |presets| ==> presets[k] == tail[k - 1];
      }
    } else if presets != [] {
      assert presets[0] == FirstWithId(presets, id).value;
    }
  }

  /** Appending a preset never hides an earlier match, and a preset whose id
      is new to the list is found by its id. */
  lemma {:induction false} FirstWithIdAppend(presets: seq<Preset>, p: Preset, id: string)
    ensures FirstWithId(presets + [p], id) ==
              if FirstWithId(presets, id).Some? then FirstWithId(presets, id)
              else if p.id == id then Some(p) else None
    decreases |presets|
  {
    if presets != [] {
      assert (presets + [p])[1..] == presets[1..] + [p];
      FirstWithIdAppend(presets[1..], p, id);
    }
  }

  /** Deleting one id leaves the lookup of every other id as it was. */
  lemma {:induction false} FirstWithIdAfterDelete(presets: seq<Preset>, deleted: string, id: string)
    requires deleted != id
    ensures FirstWithId(WithoutId(presets, deleted), id) == FirstWithId(presets, id)
    decreases |presets|
  {
    if presets != [] {
      FirstWithIdAfterDelete(presets[1..], deleted, id);
      var rest := WithoutId(presets[1..], deleted);
      if presets[0].id != deleted {
        assert WithoutId(presets, deleted) == [presets[0]] + rest;
        assert ([presets[0]] + rest)[1..] == rest;
      } else {
        assert WithoutId(presets, deleted) == rest;
      }
    }
  }

  /** Once an id is deleted, looking it up finds nothing. */
  lemma DeletedIdIsNotFound(presets: seq<Preset>, id: string)
    ensures FirstWithId(WithoutId(presets, id), id) == None
  {
    var rest := WithoutId(presets, id);
    WithoutIdMeaning(presets, id);
    assert forall k :: 0 <= k < |rest| ==> rest[k] in rest;
    FirstWithIdMeaning(rest, id);
  }

  /** The user's list, or the empty list when the user has none yet. */
  function ListOf(store: map<UserId, seq<Preset>>, user: UserId): seq<Preset> {
    if user in store then store[user] else []
  }

  class PresetStore {
    var presets: map<UserId, seq<Preset>>

    /** `voice_presets = {}`. */
    constructor ()
      ensures presets == map[]
    {
      presets := map[];
    }

    /** `manage_presets` on GET: the user gets an empty list if they had none,
        and their list is shown. */
    method List(user: UserId) returns (shown: seq<Preset>)
      modifies this
      ensures presets == old(presets)[user := ListOf(old(presets), user)]
      ensures shown == ListOf(old(presets), user)
    {
      if user !in presets {
        presets := presets[user := []];
      }
      shown := presets[user];
    }

    /** `manage_presets` on POST: a preset built from the form, with emotion
        `neutral` when the field is missing, is appended to the user's list,
        which is created first if absent. No other user's list changes. */
    method Save(user: UserId, id: string, name: Option<string>, voiceId: Option<string>,
                emotion: Option<string>, pitch: real, rate: real, createdAt: string)
      modifies this
      ensures presets == old(presets)[user := ListOf(old(presets), user) +
                [Preset(id, name, voiceId, emotion.GetOr(DefaultEmotion), pitch, rate, createdAt)]]
    {
      if user !in presets {
        presets := presets[user := []];
      }
      var preset := Preset(id, name, voiceId, emotion.GetOr(DefaultEmotion), pitch, rate, createdAt);
      presets := presets[user := presets[user] + [preset]];
    }

    /** `delete_preset`: every preset with the id leaves the user's list,
        the rest keep their order; nothing happens when the user has no list,
        and no other user's list changes. */
    method Delete(user: UserId, presetId: string)
      modifies this
      ensures user in old(presets) ==> presets == old(presets)[user := WithoutId(old(presets)[user], presetId)]
      ensures user !in old(presets) ==> presets == old(presets)
    {
      if user in presets {
        presets := presets[user := WithoutId(presets[user], presetId)];
      }
    }

    /** `use_preset`'s lookup: scans the user's list front to back and stops
        at the first preset with the id; none when there is no such preset or
        no list. */
    method Find(user: UserId, presetId: string) returns (found: Option<Preset>)
      ensures found == FirstWithId(ListOf(presets, user), presetId)
    {
      found := None;
      if user in presets {
        var list := presets[user];
        var i := 0;
        while i < |list|
          invariant 0 <= i <= |list|
          invariant forall j :: 0 <= j < i ==> list[j].id != presetId
        {
          if list[i].id == presetId {
            found := Some(list[i]);
            FirstWithIdSkips(list, presetId, i);
            return;
          }
          i := i + 1;
        }
        FirstWithIdMeaning(list, presetId);
      }
    }
  }

  /** The first match is the element after a prefix without matches. */
  lemma {:induction false} FirstWithIdSkips(presets: seq<Preset>, id: string, i: nat)
    requires i < |presets| && presets[i].id == id
    requires forall j :: 0 <= j < i ==> presets[j].id != id
    ensures FirstWithId(presets, id) == Some(presets[i])
    decreases i
  {
    if i > 0 {
      FirstWithIdSkips(presets[1..], id, i - 1);
    }
  }
}
