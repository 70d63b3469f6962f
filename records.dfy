/** The data both programs read: save-folder listings, `steam_appid.txt`
    markers, the player's local records and a game's definitions. The JSON
    and text files are taken as already read; what a file held is a value. */
module Records {
  import opened Common

  /** The fixed name of both the local-record file and the definitions file. */
  const AchievementsFileName := "achievements.json"

  /** The language the two programs read texts in. */
  const English := "english"

  /** One name returned by `os.listdir`, and whether `os.path.isdir` holds of it. */
  datatype DirEntry = DirEntry(name: string, isDir: bool)

  /** A `steam_appid.txt` found by the recursive glob: the directory it sits
      in and the text it holds. */
  datatype Marker = Marker(dir: Path, text: string)

  /** One entry of a local `achievements.json`: its key and its fields.
      `progress` and `maxProgress` are absent when the key is absent. */
  datatype LocalRecord = LocalRecord(name: string, earned: bool, earnedTime: int,
                                     progress: Option<int>, maxProgress: Option<int>)

  /** One element of a game's definitions list. `hidden` and `icon` are
      absent when the key is absent; JSON true/false stand as 1/0 in `hidden`. */
  datatype Definition = Definition(name: string, displayName: map<string, string>,
                                   description: map<string, string>,
                                   hidden: Option<int>, icon: Option<string>)

  /** `os.path.join(os.path.dirname(marker), "achievements.json")`: the
      definitions file beside a marker. */
  function DefinitionsPath(m: Marker): (p: Path)
    ensures Dirname(p) == m.dir && Basename(p) == AchievementsFileName
  {
    Join(m.dir, AchievementsFileName)
  }

  /** The local records come from a JSON object, so no two share a name. */
  predicate DistinctNames(records: seq<LocalRecord>)
  {
    forall i, j :: 0 <= i < j < |records| ==> records[i].name != records[j].name
  }

  /** `dict.get(name)` on the local records: the first record with that
      name, or nothing. A loaded JSON object never repeats a name (see
      `DistinctNames`); on such records the first is the only one. */
  function Lookup(records: seq<LocalRecord>, name: string): (r: Option<LocalRecord>)
    ensures r.None? <==> forall k :: 0 <= k < |records| ==> records[k].name != name
    ensures r.Some? ==> exists k :: 0 <= k < |records| && records[k] == r.value && r.value.name == name
  {
    if |records| == 0 then None
    else if records[0].name == name then Some(records[0])
    else
      var r := Lookup(records[1..], name);
      assert r.Some? ==> exists k :: 0 <= k < |records| && records[k] == r.value
        by { if r.Some? { var k :| 0 <= k < |records[1..]| && records[1..][k] == r.value; assert records[k + 1] == r.value; } }
      r
  }

  /** On records with distinct names, as a dict holds them, `Lookup` finds
      exactly the record of that name. */
  lemma LookupFindsTheRecord(records: seq<LocalRecord>, rec: LocalRecord)
    requires DistinctNames(records)
    ensures Lookup(records, rec.name) == Some(rec) <==> rec in records
  {
    var r := Lookup(records, rec.name);
    if rec in records {
      var i :| 0 <= i < |records| && records[i] == rec;
      assert r.Some?;
      var k :| 0 <= k < |records| && records[k] == r.value && r.value.name == rec.name;
      assert k == i;
    }
  }
}
