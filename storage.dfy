/**
 * The pure parts of backend/schedule_storage.py: sanitize_filename, the filter that
 * list_schedule_files applies to a directory listing, and the change detection of
 * reload_schedules.  The directory listing, the file tests and the modification times
 * are handed in by the caller; modification times are compared only for equality.
 */
module ScheduleStorage {
  import opened Wrappers

  // ---------------------------------------------------------------------------------
  // sanitize_filename
  // ---------------------------------------------------------------------------------

  const InvalidChars: string := "<>:\"/\\|?*"

  /** Membership in the list of invalid characters, spelled out. */
  predicate Invalid(c: char)
  {
    c == '<' || c == '>' || c == ':' || c == '"' || c == '/' || c == '\\' || c == '|' || c == '?' || c == '*'
  }

  lemma InvalidCharsExact(c: char)
    ensures c in InvalidChars <==> Invalid(c)
  {
  }

  /** The characters `strip(' .')` removes from both ends. */
  predicate Strippable(c: char)
  {
    c == ' ' || c == '.'
  }

  /** `s.replace(c, r)` for a one-character pattern. */
  function ReplaceAll(s: string, c: char, r: char): (out: string)
    ensures |out| == |s|
    ensures forall i :: 0 <= i < |s| ==> out[i] == if s[i] == c then r else s[i]
  {
    seq(|s|, i requires 0 <= i < |s| => if s[i] == c then r else s[i])
  }

  /** The loop `for char in invalid_chars: sanitized = sanitized.replace(char, '_')` after `cs`. */
  function ReplaceEach(s: string, cs: string): string
  {
    if cs == [] then s
    else ReplaceAll(ReplaceEach(s, cs[..|cs| - 1]), cs[|cs| - 1], '_')
  }

  /** One pass over a prefix of the characters replaces exactly those characters by `_`. */
  lemma {:induction false} ReplaceEachAt(s: string, cs: string)
    requires '_' !in cs
    ensures |ReplaceEach(s, cs)| == |s|
    ensures forall i :: 0 <= i < |s| ==> ReplaceEach(s, cs)[i] == if s[i] in cs then '_' else s[i]
  {
    if cs != [] {
      var init := cs[..|cs| - 1];
      ReplaceEachAt(s, init);
      assert cs == init + [cs[|cs| - 1]];
    }
  }

  function StripLeft(s: string): (r: string)
    ensures |r| <= |s| && r == s[|s| - |r|..]
    ensures r == [] || !Strippable(r[0])
    ensures forall k :: 0 <= k < |s| - |r| ==> Strippable(s[k])
  {
    if s != [] && Strippable(s[0]) then
      var r := StripLeft(s[1..]);
      assert forall k :: 1 <= k < |s| - |r| ==> s[k] == s[1..][k - 1];
      r
    else s
  }

  function StripRight(s: string): (r: string)
    ensures |r| <= |s| && r == s[..|r|]
    ensures r == [] || !Strippable(r[|r| - 1])
    ensures forall k :: |r| <= k < |s| ==> Strippable(s[k])
  {
    if s != [] && Strippable(s[|s| - 1]) then
      var r := StripRight(s[..|s| - 1]);
      assert forall k :: |r| <= k < |s| - 1 ==> s[k] == s[..|s| - 1][k];
      r
    else s
  }

  /** `strip(' .')`: the longest run of characters that is neither preceded nor followed only by spaces and dots. */
  function Strip(s: string): string
  {
    StripRight(StripLeft(s))
  }

  /** Where the kept run starts: the number of spaces and dots strip removes on the left. */
  function StripStart(s: string): (i: nat)
    ensures i + |Strip(s)| <= |s|
  {
    |s| - |StripLeft(s)|
  }

  /** What strip keeps: a slice of the input, not starting or ending with a space or dot, with only those removed. */
  lemma StripShape(s: string)
    ensures var r, i := Strip(s), StripStart(s);
      (r == [] || (!Strippable(r[0]) && !Strippable(r[|r| - 1]))) &&
      r == s[i..i + |r|] &&
      (forall k :: 0 <= k < i ==> Strippable(s[k])) && (forall k :: i + |r| <= k < |s| ==> Strippable(s[k]))
  {
    var l := StripLeft(s);
    StripComposed(s, l, StripRight(l), |s| - |l|);
  }

  /** Stripping the right end of what remains after stripping the left end. */
  lemma StripComposed(s: string, l: string, r: string, i: nat)
    requires i <= |s| && l == s[i..] && |r| <= |l| && r == l[..|r|]
    requires l == [] || !Strippable(l[0])
    requires forall k :: 0 <= k < i ==> Strippable(s[k])
    requires forall k :: |r| <= k < |l| ==> Strippable(l[k])
    ensures r == s[i..i + |r|]
    ensures r == [] || !Strippable(r[0])
    ensures forall k :: i + |r| <= k < |s| ==> Strippable(s[k])
  {
    assert s[i..][..|r|] == s[i..i + |r|];
    forall k | i + |r| <= k < |s| ensures Strippable(s[k]) {
      assert s[k] == l[k - i];
    }
  }

  /** sanitize_filename as a composition of the three steps. */
  function Sanitize(name: string): string
  {
    ReplaceAll(Strip(ReplaceEach(name, InvalidChars)), ' ', '_')
  }

  /** A name sanitize_filename leaves alone. */
  predicate Clean(s: string)
  {
    (forall i :: 0 <= i < |s| ==> !Invalid(s[i]) && s[i] != ' ') &&
    (s == [] || (s[0] != '.' && s[|s| - 1] != '.'))
  }

  /** After the replacement loop no invalid character is left. */
  lemma ReplacedValid(name: string)
    ensures |ReplaceEach(name, InvalidChars)| == |name|
    ensures forall j :: 0 <= j < |name| ==> !Invalid(ReplaceEach(name, InvalidChars)[j])
  {
    assert '_' !in InvalidChars;
    ReplaceEachAt(name, InvalidChars);
    forall j | 0 <= j < |name| ensures !Invalid(ReplaceEach(name, InvalidChars)[j]) {
      InvalidCharsExact(ReplaceEach(name, InvalidChars)[j]);
    }
  }

  /** Replacing the spaces of a run that has no invalid character and no dot or space at its ends. */
  lemma SpacesReplacedClean(b: string, r: string)
    requires forall k :: 0 <= k < |b| ==> !Invalid(b[k])
    requires b == [] || (!Strippable(b[0]) && !Strippable(b[|b| - 1]))
    requires |r| == |b| && forall k :: 0 <= k < |b| ==> r[k] == if b[k] == ' ' then '_' else b[k]
    ensures Clean(r)
  {
  }

  lemma SliceValid(a: string, b: string, i: nat)
    requires i + |b| <= |a| && b == a[i..i + |b|]
    requires forall k :: 0 <= k < |a| ==> !Invalid(a[k])
    ensures forall k :: 0 <= k < |b| ==> !Invalid(b[k])
  {
    forall k | 0 <= k < |b| ensures !Invalid(b[k]) {
      assert b[k] == a[i + k];
    }
  }

  /**
   * The result has none of the invalid characters and no spaces, does not begin or end
   * with a dot, and is no longer than the input.
   */
  lemma SanitizeClean(name: string)
    ensures Clean(Sanitize(name))
    ensures |Sanitize(name)| <= |name|
  {
    var a := ReplaceEach(name, InvalidChars);
    var b := Strip(a);
    var r := ReplaceAll(b, ' ', '_');
    ReplacedValid(name);
    StripShape(a);
    CleanAfterStrip(a, b, StripStart(a), r);
  }

  /** The last two steps of sanitize_filename keep a name free of invalid characters and make it clean. */
  lemma CleanAfterStrip(a: string, b: string, i: nat, r: string)
    requires forall k :: 0 <= k < |a| ==> !Invalid(a[k])
    requires i + |b| <= |a| && b == a[i..i + |b|]
    requires b == [] || (!Strippable(b[0]) && !Strippable(b[|b| - 1]))
    requires |r| == |b| && forall k :: 0 <= k < |b| ==> r[k] == if b[k] == ' ' then '_' else b[k]
    ensures Clean(r) && |r| <= |a|
  {
    SliceValid(a, b, i);
    SpacesReplacedClean(b, r);
  }

  /** A clean name is a fixed point. */
  lemma SanitizeKeepsClean(s: string)
    requires Clean(s)
    ensures Sanitize(s) == s
  {
    ReplaceEachAt(s, InvalidChars);
    var a := ReplaceEach(s, InvalidChars);
    forall k | 0 <= k < |s| ensures a[k] == s[k] {
      InvalidCharsExact(s[k]);
    }
    assert a == s;
    assert StripLeft(s) == s;
    assert StripRight(s) == s;
    var r := ReplaceAll(s, ' ', '_');
    assert r == s;
  }

  /** Exactly the clean names are left unchanged (both directions). */
  lemma SanitizeFixedPoints(s: string)
    ensures Sanitize(s) == s <==> Clean(s)
  {
    SanitizeClean(s);
    if Clean(s) {
      SanitizeKeepsClean(s);
    }
  }

  /** Sanitizing twice is sanitizing once. */
  lemma SanitizeIdempotent(name: string)
    ensures Sanitize(Sanitize(name)) == Sanitize(name)
  {
    SanitizeClean(name);
    SanitizeKeepsClean(Sanitize(name));
  }

  /** The loop over the invalid characters, then the strip, then the space replacement. */
  method SanitizeFilename(name: string) returns (sanitized: string)
    ensures sanitized == Sanitize(name)
  {
    sanitized := name;
    for i := 0 to |InvalidChars|
      invariant sanitized == ReplaceEach(name, InvalidChars[..i])
    {
      assert InvalidChars[..i + 1][..i] == InvalidChars[..i] && InvalidChars[..i + 1][i] == InvalidChars[i];
      sanitized := ReplaceAll(sanitized, InvalidChars[i], '_');
    }
    assert InvalidChars[..|InvalidChars|] == InvalidChars;
    sanitized := Strip(sanitized);
    sanitized := ReplaceAll(sanitized, ' ', '_');
  }

  // ---------------------------------------------------------------------------------
  // list_schedule_files
  // ---------------------------------------------------------------------------------

  const ConfigFile: string := "schedule_config.json"
  const LogsDir: string := ".logs"
  const JsonSuffix: string := ".json"

  /** One name of `os.listdir`, with what `os.path.isfile` and `os.stat` report for it. */
  datatype DirEntry = DirEntry(name: string, isFile: bool, modifiedTime: int, size: int)

  datatype FileInfo = FileInfo(filename: string, studentName: string, modifiedTime: int, size: int)

  predicate StartsWith(s: string, p: string)
  {
    |p| <= |s| && s[..|p|] == p
  }

  predicate EndsWith(s: string, p: string)
  {
    |p| <= |s| && s[|s| - |p|..] == p
  }

  /** The tests an entry passes to be listed. */
  predicate Listed(e: DirEntry)
  {
    !(e.name == LogsDir || e.name == ConfigFile || StartsWith(e.name, ".")) && EndsWith(e.name, JsonSuffix) && e.isFile
  }

  /** `student_name` is the file name without its last five characters. */
  function InfoOf(e: DirEntry): FileInfo
    requires EndsWith(e.name, JsonSuffix)
  {
    FileInfo(e.name, e.name[..|e.name| - 5], e.modifiedTime, e.size)
  }

  function ListedFiles(entries: seq<DirEntry>): seq<FileInfo>
  {
    if entries == [] then []
    else
      var e := entries[|entries| - 1];
      ListedFiles(entries[..|entries| - 1]) + (if Listed(e) then [InfoOf(e)] else [])
  }

  /** Some entry of the listing passes the tests and is described by f. */
  predicate ListedFrom(entries: seq<DirEntry>, f: FileInfo)
  {
    exists k :: 0 <= k < |entries| && Listed(entries[k]) && f == InfoOf(entries[k])
  }

  /**
   * A file is listed exactly when a listing entry passes the tests; its student name plus
   * ".json" is its file name, and it is never the config file, the logs directory or a
   * hidden name.
   */
  lemma {:induction false} ListedFilesExact(entries: seq<DirEntry>, f: FileInfo)
    ensures f in ListedFiles(entries) <==> ListedFrom(entries, f)
    ensures f in ListedFiles(entries) ==>
      f.filename == f.studentName + JsonSuffix && f.filename != ConfigFile && f.filename != LogsDir &&
      !StartsWith(f.filename, ".")
  {
    if entries != [] {
      var n := |entries| - 1;
      var init := entries[..n];
      ListedFilesExact(init, f);
      if ListedFrom(init, f) {
        var k :| 0 <= k < |init| && Listed(init[k]) && f == InfoOf(init[k]);
        assert init[k] == entries[k];
      }
      if ListedFrom(entries, f) {
        var k :| 0 <= k < |entries| && Listed(entries[k]) && f == InfoOf(entries[k]);
        if k < n {
          assert init[k] == entries[k];
        }
      }
      if f in ListedFiles(entries) && f !in ListedFiles(init) {
        var name := entries[n].name;
        assert f == InfoOf(entries[n]);
        assert name == name[..|name| - 5] + name[|name| - 5..];
      }
    }
  }

  /** `list_schedule_files`; None stands for a directory that does not exist. */
  method ListScheduleFiles(listing: Option<seq<DirEntry>>) returns (files: seq<FileInfo>)
    ensures files == match listing case None => [] case Some(entries) => ListedFiles(entries)
  {
    if listing.None? {
      return [];
    }
    var entries := listing.value;
    files := [];
    for i := 0 to |entries|
      invariant files == ListedFiles(entries[..i])
    {
      var e := entries[i];
      assert entries[..i + 1][..i] == entries[..i] && entries[..i + 1][i] == e;
      if e.name == LogsDir || e.name == ConfigFile || StartsWith(e.name, ".") {
        continue;
      }
      if EndsWith(e.name, JsonSuffix) && e.isFile {
        files := files + [FileInfo(e.name, e.name[..|e.name| - 5], e.modifiedTime, e.size)];
      }
    }
    assert entries[..|entries|] == entries;
  }

  // ---------------------------------------------------------------------------------
  // reload_schedules: change detection
  // ---------------------------------------------------------------------------------

  /** `{f["student_name"]: f["modified_time"] for f in current_files}`; a later file wins. */
  function Metadata(files: seq<FileInfo>): (m: map<string, int>)
    ensures forall n :: n in m <==> exists k :: 0 <= k < |files| && files[k].studentName == n
  {
    if files == [] then map[]
    else
      var f := files[|files| - 1];
      var m := Metadata(files[..|files| - 1]);
      assert forall k :: 0 <= k < |files| - 1 ==> files[k] == files[..|files| - 1][k];
      m[f.studentName := f.modifiedTime]
  }

  /** The time recorded for a name is that of the last file carrying the name. */
  lemma {:induction false} MetadataLatest(files: seq<FileInfo>, k: nat)
    requires k < |files|
    requires forall j :: k < j < |files| ==> files[j].studentName != files[k].studentName
    ensures files[k].studentName in Metadata(files)
    ensures Metadata(files)[files[k].studentName] == files[k].modifiedTime
  {
    var n := |files| - 1;
    if k < n {
      MetadataLatest(files[..n], k);
      assert files[..n][k] == files[k];
    }
  }

  /**
   * The key order of the metadata dict: each name where it first occurs among the files, as a
   * Python dict keeps a key at its first insertion when a later file overwrites its value.
   */
  function KeyOrder(files: seq<FileInfo>): (ks: seq<string>)
    ensures forall i, j :: 0 <= i < j < |ks| ==> ks[i] != ks[j]
    ensures forall n :: n in ks <==> n in Metadata(files)
  {
    if files == [] then []
    else
      var n := |files| - 1;
      var ks := KeyOrder(files[..n]);
      assert forall k :: 0 <= k < n ==> files[k] == files[..n][k];
      if files[n].studentName in ks then ks else ks + [files[n].studentName]
  }

  /** A name listed before another was seen before any file carrying the later one. */
  lemma {:induction false} KeyOrderFirstSeen(files: seq<FileInfo>, i: nat, j: nat, b: nat)
    requires i < j < |KeyOrder(files)| && b < |files| && files[b].studentName == KeyOrder(files)[j]
    ensures exists a :: 0 <= a < b && files[a].studentName == KeyOrder(files)[i]
  {
    var n := |files| - 1;
    var prefix := files[..n];
    var ks := KeyOrder(prefix);
    assert forall k :: 0 <= k < n ==> files[k] == prefix[k];
    assert ks[i] in Metadata(prefix);
    var k :| 0 <= k < n && prefix[k].studentName == ks[i];
    if b == n {
      assert files[k].studentName == KeyOrder(files)[i];
    } else if j < |ks| {
      KeyOrderFirstSeen(prefix, i, j, b);
      var a :| 0 <= a < b && prefix[a].studentName == ks[i];
      assert files[a].studentName == KeyOrder(files)[i];
    } else {
      assert false;
    }
  }

  /** `list(...)` of a set: every element once, in an order the model leaves open. */
  ghost predicate ListsSet(s: seq<string>, names: set<string>)
  {
    (forall i, j :: 0 <= i < j < |s| ==> s[i] != s[j]) && forall n :: n in s <==> n in names
  }

  /** The three sets reload_schedules reports, given the current and the previous metadata. */
  function ChangeSets(current: map<string, int>, previous: Option<map<string, int>>): (set<string>, set<string>, set<string>)
  {
    if previous.Some? && |previous.value| > 0 then
      var prev := previous.value;
      (current.Keys - prev.Keys,
       (set n | n in current.Keys * prev.Keys && current[n] != prev[n]),
       prev.Keys - current.Keys)
    else (current.Keys, {}, {})
  }

  /**
   * With a previous, non-empty map: `new` (here `added`) holds the names only present now, `deleted` those
   * only present before, `modified` those in both whose times differ; the three are
   * pairwise disjoint.  Otherwise everything present is new.
   */
  lemma ChangeSetsMeaning(current: map<string, int>, previous: Option<map<string, int>>, n: string)
    ensures var c := ChangeSets(current, previous);
      (c.0 * c.1 == {} && c.0 * c.2 == {} && c.1 * c.2 == {}) &&
      (previous.Some? && |previous.value| > 0 ==>
         (n in c.0 <==> n in current && n !in previous.value) &&
         (n in c.2 <==> n !in current && n in previous.value) &&
         (n in c.1 <==> n in current && n in previous.value && current[n] != previous.value[n])) &&
      (previous.None? || |previous.value| == 0 ==> (n in c.0 <==> n in current) && c.1 == {} && c.2 == {})
  {
  }

  /** A name that is neither new nor deleted nor modified has the same time in both maps. */
  lemma UnchangedSame(current: map<string, int>, prev: map<string, int>, n: string)
    requires |prev| > 0 && n in current
    requires var c := ChangeSets(current, Some(prev)); n !in c.0 && n !in c.1
    ensures n in prev && current[n] == prev[n]
  {
  }

  /** `list(s)`: the elements taken one at a time in whatever order the set yields them. */
  method SetToList(names: set<string>) returns (s: seq<string>)
    ensures ListsSet(s, names)
  {
    s := [];
    var rest := names;
    while rest != {}
      invariant rest <= names
      invariant forall i, j :: 0 <= i < j < |s| ==> s[i] != s[j]
      invariant forall n :: n in s <==> n in names && n !in rest
      decreases |rest|
    {
      var n :| n in rest;
      s := s + [n];
      rest := rest - {n};
    }
  }

  /** The change detection of reload_schedules over the current and the last known metadata. */
  method DetectChanges(current: map<string, int>, keys: seq<string>, lastKnown: Option<map<string, int>>)
    returns (added: seq<string>, modified: seq<string>, deleted: seq<string>)
    requires ListsSet(keys, current.Keys)
    ensures var c := ChangeSets(current, lastKnown);
      ListsSet(added, c.0) && ListsSet(modified, c.1) && ListsSet(deleted, c.2)
    ensures lastKnown.None? || |lastKnown.value| == 0 ==> added == keys
  {
    modified, deleted := [], [];
    if lastKnown.Some? && |lastKnown.value| > 0 {
      var previous := lastKnown.value;
      added := SetToList(current.Keys - previous.Keys);
      deleted := SetToList(previous.Keys - current.Keys);
      var common := current.Keys * previous.Keys;
      var rest := common;
      while rest != {}
        invariant rest <= common
        invariant forall i, j :: 0 <= i < j < |modified| ==> modified[i] != modified[j]
        invariant forall n :: n in modified <==> n in common && n !in rest && current[n] != previous[n]
        decreases |rest|
      {
        var name :| name in rest;
        if current[name] != previous[name] {
          modified := modified + [name];
        }
        rest := rest - {name};
      }
    } else {
      added := keys;
    }
  }

  /**
   * The part of reload_schedules that does not read schedules: list the files, take their
   * metadata and compare it with the last known one.
   */
  method ReloadChanges(listing: Option<seq<DirEntry>>, lastKnown: Option<map<string, int>>)
    returns (added: seq<string>, modified: seq<string>, deleted: seq<string>, metadata: map<string, int>)
    ensures var files := match listing case None => [] case Some(entries) => ListedFiles(entries);
      metadata == Metadata(files) &&
      var c := ChangeSets(metadata, lastKnown);
      ListsSet(added, c.0) && ListsSet(modified, c.1) && ListsSet(deleted, c.2) &&
      (lastKnown.None? || |lastKnown.value| == 0 ==> added == KeyOrder(files))
  {
    var files := ListScheduleFiles(listing);
    metadata := Metadata(files);
    added, modified, deleted := DetectChanges(metadata, KeyOrder(files), lastKnown);
  }
}
