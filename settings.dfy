/** The settings screen: the administrator's password change, the set of data
    collections chosen for clearing, the viewer-account flag as it is loaded and
    saved, and the shape a backup file must have before a restore is offered. */
module Settings {
  import opened Optional
  import opened Seqs
  import opened Domain

  // ---------------------------------------------------------------------------
  // Password change
  // ---------------------------------------------------------------------------

  /** The outcome of `handlePasswordSubmit`: one of its three messages, or the
      settings it stores. */
  datatype PasswordOutcome = Mismatch | TooShort | WrongCurrent | Changed(settings: CenterSettings)

  /** The password the app starts with. */
  const DefaultAdminPassword := "123456"

  const MinPasswordLength := 6

  /** `state.settings.adminPassword || '123456'`. */
  function ActualCurrentPassword(settings: CenterSettings): (p: string)
    ensures p != ""
    ensures settings.adminPassword.Some? && settings.adminPassword.value != "" ==> p == settings.adminPassword.value
    ensures settings.adminPassword.None? || settings.adminPassword == Some("") ==> p == DefaultAdminPassword
  {
    match settings.adminPassword
    case Some(p) => if p != "" then p else DefaultAdminPassword
    case None => DefaultAdminPassword
  }

  /** `handlePasswordSubmit`: the checks in the order written, then the new settings. */
  function HandlePasswordSubmit(settings: CenterSettings, currentPassword: string, newPassword: string, confirmPassword: string)
    : PasswordOutcome
  {
    if newPassword != confirmPassword then Mismatch
    else if |newPassword| < MinPasswordLength then TooShort
    else if currentPassword != ActualCurrentPassword(settings) then WrongCurrent
    else Changed(settings.(adminPassword := Some(newPassword)))
  }

  /** A mismatch is reported first, whatever the other inputs; a short password
      next; a wrong current password last; and exactly when all three checks pass
      the settings change, in the password alone. */
  lemma PasswordSubmitProperties(settings: CenterSettings, currentPassword: string, newPassword: string, confirmPassword: string)
    ensures newPassword != confirmPassword ==>
      HandlePasswordSubmit(settings, currentPassword, newPassword, confirmPassword) == Mismatch
    ensures newPassword == confirmPassword && |newPassword| < 6 ==>
      HandlePasswordSubmit(settings, currentPassword, newPassword, confirmPassword) == TooShort
    ensures newPassword == confirmPassword && |newPassword| >= 6 && currentPassword != ActualCurrentPassword(settings) ==>
      HandlePasswordSubmit(settings, currentPassword, newPassword, confirmPassword) == WrongCurrent
    ensures HandlePasswordSubmit(settings, currentPassword, newPassword, confirmPassword).Changed? <==>
      newPassword == confirmPassword && |newPassword| >= 6 && currentPassword == ActualCurrentPassword(settings)
    ensures HandlePasswordSubmit(settings, currentPassword, newPassword, confirmPassword).Changed? ==>
      var s := HandlePasswordSubmit(settings, currentPassword, newPassword, confirmPassword).settings;
      && s.adminPassword == Some(newPassword)
      && s.name == settings.name && s.bankName == settings.bankName && s.bankBin == settings.bankBin
      && s.bankAccountNumber == settings.bankAccountNumber && s.bankAccountHolder == settings.bankAccountHolder
      && s.viewerAccountActive == settings.viewerAccountActive
  {
  }

  /** Without a stored password the default one is accepted as the current one. */
  lemma DefaultPasswordAccepted(settings: CenterSettings, newPassword: string)
    requires settings.adminPassword.None? || settings.adminPassword == Some("")
    requires |newPassword| >= 6
    ensures HandlePasswordSubmit(settings, "123456", newPassword, newPassword) == Changed(settings.(adminPassword := Some(newPassword)))
  {
  }

  /** After a change the new password is the current one: it alone passes the
      current-password check of the next change. */
  lemma ChangedPasswordIsCurrent(settings: CenterSettings, currentPassword: string, newPassword: string,
                                 current': string, next: string)
    requires HandlePasswordSubmit(settings, currentPassword, newPassword, newPassword).Changed?
    requires |next| >= 6
    ensures var s := HandlePasswordSubmit(settings, currentPassword, newPassword, newPassword).settings;
      HandlePasswordSubmit(s, current', next, next).Changed? <==> current' == newPassword
  {
  }

  // ---------------------------------------------------------------------------
  // Collections to clear
  // ---------------------------------------------------------------------------

  datatype Collection = Students | Teachers | Staff | Classes

  function Except(collection: Collection): Collection -> bool {
    (c: Collection) => c != collection
  }

  /** `handleCheckboxChange`: drop a chosen collection, append one not chosen. */
  function ToggleCollection(prev: seq<Collection>, collection: Collection): seq<Collection> {
    if collection in prev then Filter(prev, Except(collection)) else prev + [collection]
  }

  /** A toggle flips the membership of the clicked collection and of no other, and
      keeps the list free of repeats. */
  lemma ToggleCollectionProperties(prev: seq<Collection>, collection: Collection)
    ensures collection in ToggleCollection(prev, collection) <==> collection !in prev
    ensures forall c :: c != collection ==> (c in ToggleCollection(prev, collection) <==> c in prev)
    ensures collection !in prev ==> ToggleCollection(prev, collection) == prev + [collection]
    ensures NoRepeats(prev) ==> NoRepeats(ToggleCollection(prev, collection))
  {
    if collection in prev {
      if NoRepeats(prev) {
        FilterNoRepeats(prev, Except(collection));
      }
    }
  }

  predicate NoRepeats(s: seq<Collection>) {
    forall i, j :: 0 <= i < j < |s| ==> s[i] != s[j]
  }

  lemma {:induction false} FilterNoRepeats(s: seq<Collection>, p: Collection -> bool)
    requires NoRepeats(s)
    ensures NoRepeats(Filter(s, p))
    decreases |s|
  {
    if s != [] {
      var init := s[..|s| - 1];
      FilterNoRepeats(init, p);
      assert s[|s| - 1] !in init;
    }
  }

  /** Two clicks on the same collection restore the choice: the same members, and
      the same list when the collection was not chosen. */
  lemma ToggleTwice(prev: seq<Collection>, collection: Collection)
    ensures forall c :: c in ToggleCollection(ToggleCollection(prev, collection), collection) <==> c in prev
    ensures collection !in prev ==> ToggleCollection(ToggleCollection(prev, collection), collection) == prev
  {
    ToggleCollectionProperties(prev, collection);
    ToggleCollectionProperties(ToggleCollection(prev, collection), collection);
    if collection !in prev {
      FilterConcat(prev, [collection], Except(collection));
      FilterSingleton(collection, Except(collection));
      FilterKeepsAll(prev, Except(collection));
    }
  }

  // ---------------------------------------------------------------------------
  // The viewer-account flag
  // ---------------------------------------------------------------------------

  /** The form's copy of the settings: `viewerAccountActive ?? true`. */
  function LoadForm(stored: CenterSettings): (form: CenterSettings)
    ensures form.viewerAccountActive.Some?
    ensures stored.viewerAccountActive.None? ==> form.viewerAccountActive == Some(true)
    ensures stored.viewerAccountActive.Some? ==> form.viewerAccountActive == stored.viewerAccountActive
    ensures form.(viewerAccountActive := stored.viewerAccountActive) == stored
  {
    stored.(viewerAccountActive := Some(stored.viewerAccountActive.GetOr(true)))
  }

  /** The settings `handleSettingsSubmit` stores: `!!viewerAccountActive`. */
  function SettingsToSave(form: CenterSettings): (saved: CenterSettings)
    ensures saved.viewerAccountActive.Some?
    ensures saved.viewerAccountActive == Some(form.viewerAccountActive == Some(true))
    ensures saved.(viewerAccountActive := form.viewerAccountActive) == form
  {
    form.(viewerAccountActive := Some(match form.viewerAccountActive case Some(b) => b case None => false))
  }

  /** Loading and then saving unchanged settings stores the flag as a boolean that
      is true unless it was stored false; a second round changes nothing more. */
  lemma LoadSaveRoundTrip(stored: CenterSettings)
    ensures SettingsToSave(LoadForm(stored)).viewerAccountActive == Some(stored.viewerAccountActive != Some(false))
    ensures stored.viewerAccountActive.Some? ==> SettingsToSave(LoadForm(stored)) == stored
    ensures SettingsToSave(LoadForm(SettingsToSave(LoadForm(stored)))) == SettingsToSave(LoadForm(stored))
  {
  }

  // ---------------------------------------------------------------------------
  // Restore files
  // ---------------------------------------------------------------------------

  /** A parsed JSON value; numbers are integers here. */
  datatype Json =
    | JNull
    | JBool(b: bool)
    | JNumber(n: int)
    | JString(s: string)
    | JArray(items: seq<Json>)
    | JObject(members: seq<(string, Json)>)

  /** JavaScript truthiness of a property read; `None` is `undefined`. */
  predicate Truthy(v: Option<Json>) {
    match v
    case None => false
    case Some(JNull) => false
    case Some(JBool(b)) => b
    case Some(JNumber(n)) => n != 0
    case Some(JString(s)) => s != ""
    case Some(JArray(_)) => true
    case Some(JObject(_)) => true
  }

  /** `value[key]`: the last member under `key` wins, as in `JSON.parse`; other
      values have no such property. */
  function Member(value: Json, key: string): (r: Option<Json>)
    ensures r.Some? ==> value.JObject? && exists i :: (0 <= i < |value.members| && value.members[i] == (key, r.value) &&
      forall j :: i < j < |value.members| ==> value.members[j].0 != key)
    ensures r.None? ==> !value.JObject? || forall i :: 0 <= i < |value.members| ==> value.members[i].0 != key
  {
    if value.JObject? then LastMember(value.members, key) else None
  }

  /** The value of the last of `members` under `key`. */
  function LastMember(members: seq<(string, Json)>, key: string): (r: Option<Json>)
    ensures r.Some? ==> exists i :: (0 <= i < |members| && members[i] == (key, r.value) &&
      forall j :: i < j < |members| ==> members[j].0 != key)
    ensures r.None? ==> forall i :: 0 <= i < |members| ==> members[i].0 != key
    decreases |members|
  {
    if members == [] then None
    else if members[|members| - 1].0 == key then Some(members[|members| - 1].1)
    else
      var init := members[..|members| - 1];
      var r := LastMember(init, key);
      LastMemberOfInit(members, init, key, r);
      r
  }

  /** What holds of all but the last member holds of them all when the last has
      another key. */
  lemma LastMemberOfInit(members: seq<(string, Json)>, init: seq<(string, Json)>, key: string, r: Option<Json>)
    requires members != [] && init == members[..|members| - 1] && members[|members| - 1].0 != key
    requires r.Some? ==> exists i :: (0 <= i < |init| && init[i] == (key, r.value) &&
      forall j :: i < j < |init| ==> init[j].0 != key)
    requires r.None? ==> forall i :: 0 <= i < |init| ==> init[i].0 != key
    ensures r.Some? ==> exists i :: (0 <= i < |members| && members[i] == (key, r.value) &&
      forall j :: i < j < |members| ==> members[j].0 != key)
    ensures r.None? ==> forall i :: 0 <= i < |members| ==> members[i].0 != key
  {
    if r.Some? {
      var i :| 0 <= i < |init| && init[i] == (key, r.value) &&
        forall j :: i < j < |init| ==> init[j].0 != key;
      assert members[i] == init[i];
      forall j | i < j < |members| ensures members[j].0 != key {
        if j < |init| {
          assert members[j] == init[j];
        }
      }
    } else {
      forall i | 0 <= i < |members| ensures members[i].0 != key {
        if i < |init| {
          assert members[i] == init[i];
        }
      }
    }
  }

  /** The check of `handleRestoreFileSelect` on the parsed file. */
  predicate IsRestorable(restoredData: Json) {
    Truthy(Member(restoredData, "students")) &&
    (Truthy(Member(restoredData, "settings")) || Truthy(Member(restoredData, "centerInfo")))
  }

  /** Only an object is restorable, and only with a students member and a settings
      or centerInfo member; a backup with a students list and a settings object is
      accepted whatever else it holds. */
  lemma RestoreShape(restoredData: Json)
    ensures IsRestorable(restoredData) ==> restoredData.JObject?
    ensures IsRestorable(restoredData) ==>
      (exists i :: 0 <= i < |restoredData.members| && restoredData.members[i].0 == "students") &&
      exists i :: 0 <= i < |restoredData.members| &&
        (restoredData.members[i].0 == "settings" || restoredData.members[i].0 == "centerInfo")
  {
  }

  lemma BackupIsRestorable(students: seq<Json>, settings: seq<(string, Json)>, rest: seq<(string, Json)>)
    requires forall i :: 0 <= i < |rest| ==> rest[i].0 != "students" && rest[i].0 != "settings"
    ensures IsRestorable(JObject([("students", JArray(students)), ("settings", JObject(settings))] + rest))
  {
    var members := [("students", JArray(students)), ("settings", JObject(settings))] + rest;
    var v := JObject(members);
    assert members[0] == ("students", JArray(students));
    assert members[1] == ("settings", JObject(settings));
    assert Member(v, "students") == Some(JArray(students)) by {
      var r := Member(v, "students");
      assert r.Some?;
      var i :| 0 <= i < |members| && members[i] == ("students", r.value) &&
        forall j :: i < j < |members| ==> members[j].0 != "students";
      assert i == 0;
    }
    assert Member(v, "settings") == Some(JObject(settings)) by {
      var r := Member(v, "settings");
      assert r.Some?;
      var i :| 0 <= i < |members| && members[i] == ("settings", r.value) &&
        forall j :: i < j < |members| ==> members[j].0 != "settings";
      assert i == 1;
    }
  }
}
