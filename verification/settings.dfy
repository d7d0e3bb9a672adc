/** The settings routes of server.js: a singleton document, created lazily
    on first read and written through an upsert against the empty filter. */
module SettingsRoutes {
  import opened Wrappers
  import opened Keyed
  import opened Models
  import opened Http

  /** A Settings-shaped body; `None` is a key the body lacks. */
  datatype SettingsPatch = SettingsPatch(totalLectures: Option<int>)

  /** The document an upsert inserts: the schema default for what the patch omits. */
  function NewSettings(patch: SettingsPatch): (r: Settings)
    ensures patch.totalLectures.None? ==> r.totalLectures == DefaultTotalLectures
    ensures patch.totalLectures.Some? ==> r.totalLectures == patch.totalLectures.value
  {
    Settings(patch.totalLectures.GetOr(DefaultTotalLectures))
  }

  function PatchSettings(x: Settings, patch: SettingsPatch): Settings {
    x.(totalLectures := patch.totalLectures.GetOr(x.totalLectures))
  }

  /** `Settings.findOneAndUpdate({}, patch, { upsert: true })`: the empty filter
      matches the first document, which is patched; only an empty collection
      gains a document. */
  function UpsertSettings(ss: seq<Settings>, patch: SettingsPatch): (r: seq<Settings>)
    ensures |ss| == 0 ==> r == [NewSettings(patch)]
    ensures |ss| > 0 ==> |r| == |ss| && r[0] == PatchSettings(ss[0], patch) && r[1..] == ss[1..]
    ensures |ss| <= 1 ==> |r| == 1
    ensures patch.totalLectures.Some? ==> r[0].totalLectures == patch.totalLectures.value
    ensures UniqueKeys(ss, AnyFilter) ==> UniqueKeys(r, AnyFilter)
  {
    var r := Upsert(ss, AnyFilter, (), x => PatchSettings(x, patch), NewSettings(patch));
    assert |ss| > 0 ==> FirstIndex(ss, AnyFilter, ()) == Some(0);
    r
  }

  /** GET /api/settings: with no document, one holding the default 200 is
      created and returned; otherwise the first document is returned and the
      store is left as it was. */
  function GetSettings(s: Store): (r: (Store, Response))
    ensures |s.settings| == 0 ==>
      r == (s.(settings := [Settings(DefaultTotalLectures)]), Response(200, SettingsDoc(Settings(DefaultTotalLectures))))
    ensures |s.settings| > 0 ==> r == (s, Response(200, SettingsDoc(s.settings[0])))
    ensures |r.0.settings| >= 1
    ensures Valid(s) ==> Valid(r.0)
  {
    if |s.settings| == 0 then
      var created := Settings(DefaultTotalLectures);
      SingletonSettings([created]);
      (s.(settings := [created]), Response(200, SettingsDoc(created)))
    else
      (s, Response(200, SettingsDoc(s.settings[0])))
  }

  /** A second GET /api/settings changes nothing and returns the same document. */
  lemma GetSettingsTwice(s: Store)
    ensures var (s1, r1) := GetSettings(s);
      GetSettings(s1) == (s1, r1)
  {
  }

  /** PUT /api/settings: upserts the singleton and returns it. The collection
      ends with exactly one document when it had at most one, and never grows
      when it already had one. */
  function PutSettings(s: Store, patch: SettingsPatch): (r: (Store, Response))
    ensures r.0 == s.(settings := r.0.settings)
    ensures |s.settings| <= 1 ==> |r.0.settings| == 1
    ensures |s.settings| >= 1 ==> |r.0.settings| == |s.settings|
    ensures |r.0.settings| >= 1 && r.1 == Response(200, SettingsDoc(r.0.settings[0]))
    ensures patch.totalLectures.Some? ==> r.0.settings[0].totalLectures == patch.totalLectures.value
    ensures patch.totalLectures.None? ==>
      r.0.settings[0].totalLectures == (if |s.settings| == 0 then DefaultTotalLectures else s.settings[0].totalLectures)
    ensures Valid(s) ==> Valid(r.0)
  {
    var ss := UpsertSettings(s.settings, patch);
    (s.(settings := ss), Response(200, SettingsDoc(ss[0])))
  }
}
