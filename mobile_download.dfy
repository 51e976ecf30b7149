/**
  The bookkeeping of mobile_download.py: the `temp_id` format test, the `.gpx`
  fix-up of the download name, and the two tables (`TEMP_FILES`, path by id, and
  `TEMP_FILE_METADATA`, name and creation time by id) that storing a file fills and
  the periodic cleanup prunes. Existence of a file, its modification time, the
  current time and the random tokens are parameters.
 */
module MobileDownload {
  import opened Wrappers
  import opened Text

  /** Entries older than this many seconds are removed. */
  const MaxAge := 3600

  /** `s.replace('_', '')`. */
  function WithoutUnderscores(s: string): (r: string)
    ensures |r| <= |s|
    ensures forall i | 0 <= i < |r| :: r[i] != '_'
  {
    if s == [] then []
    else (if s[0] == '_' then [] else [s[0]]) + WithoutUnderscores(s[1..])
  }

  /** `str.isalnum()`: not empty, and every character alphanumeric. */
  predicate IsAlnumString(s: string) {
    |s| > 0 && AllAlnum(s)
  }

  /** The test both download routes make before looking the id up. */
  predicate IsValidTempId(tempId: string)
    ensures IsValidTempId(tempId) ==> tempId != [] && AlnumOrUnderscore(tempId)
  {
    WithoutUnderscoresAlnum(tempId);
    tempId != [] && IsAlnumString(WithoutUnderscores(tempId))
  }

  /** Every character alphanumeric. */
  predicate AllAlnum(s: string) {
    forall i | 0 <= i < |s| :: IsAlnum(s[i])
  }

  /** Every character alphanumeric or an underscore. */
  predicate AlnumOrUnderscore(s: string) {
    forall i | 0 <= i < |s| :: s[i] == '_' || IsAlnum(s[i])
  }

  /** Both halves alphanumeric exactly when the whole is. */
  lemma AllAlnumConcat(a: string, b: string)
    ensures AllAlnum(a + b) <==> AllAlnum(a) && AllAlnum(b)
  {
    if AllAlnum(a) && AllAlnum(b) {
      forall i | 0 <= i < |a + b|
        ensures IsAlnum((a + b)[i])
      {
        if i >= |a| {
          assert (a + b)[i] == b[i - |a|];
        }
      }
    }
    if AllAlnum(a + b) {
      assert forall i | 0 <= i < |a| :: (a + b)[i] == a[i];
      assert forall i | 0 <= i < |b| :: (a + b)[|a| + i] == b[i];
    }
  }

  /** The first character and the rest, checked apart. */
  lemma AlnumOrUnderscoreCons(s: string)
    requires s != []
    ensures AlnumOrUnderscore(s) <==> (s[0] == '_' || IsAlnum(s[0])) && AlnumOrUnderscore(s[1..])
  {
    if (s[0] == '_' || IsAlnum(s[0])) && AlnumOrUnderscore(s[1..]) {
      forall i | 1 <= i < |s|
        ensures s[i] == '_' || IsAlnum(s[i])
      {
        assert s[i] == s[1..][i - 1];
      }
    }
  }

  /** Removing the underscores leaves only alphanumerics exactly when nothing else was there. */
  lemma {:induction false} WithoutUnderscoresAlnum(s: string)
    ensures AllAlnum(WithoutUnderscores(s)) <==> AlnumOrUnderscore(s)
  {
    if s != [] {
      WithoutUnderscoresAlnum(s[1..]);
      AlnumOrUnderscoreCons(s);
      var head: string := if s[0] == '_' then [] else [s[0]];
      assert WithoutUnderscores(s) == head + WithoutUnderscores(s[1..]);
      AllAlnumConcat(head, WithoutUnderscores(s[1..]));
      if s[0] == '_' { assert head == []; } else { assert head == [s[0]] && head[0] == s[0]; }
    }
  }

  /** Something is left after removing the underscores exactly when there was something else. */
  lemma {:induction false} WithoutUnderscoresNonEmpty(s: string)
    ensures |WithoutUnderscores(s)| > 0 <==> exists i | 0 <= i < |s| :: s[i] != '_'
  {
    if s != [] {
      var t := s[1..];
      WithoutUnderscoresNonEmpty(t);
      assert WithoutUnderscores(s) == (if s[0] == '_' then [] else [s[0]]) + WithoutUnderscores(t);
      assert (exists i | 0 <= i < |s| :: s[i] != '_')
         <==> s[0] != '_' || exists i | 0 <= i < |t| :: t[i] != '_' by {
        if exists i | 0 <= i < |s| :: s[i] != '_' {
          var i :| 0 <= i < |s| && s[i] != '_';
          if i > 0 {
            assert t[i - 1] != '_';
          }
        }
        if exists i | 0 <= i < |t| :: t[i] != '_' {
          var i :| 0 <= i < |t| && t[i] != '_';
          assert s[i + 1] != '_';
        }
      }
    }
  }

  /**
    A temp id is accepted exactly when it is made of letters, digits and underscores
    and holds at least one letter or digit.
   */
  lemma ValidTempId(tempId: string)
    ensures IsValidTempId(tempId)
        <==> AlnumOrUnderscore(tempId) && exists i | 0 <= i < |tempId| :: IsAlnum(tempId[i])
  {
    WithoutUnderscoresAlnum(tempId);
    WithoutUnderscoresNonEmpty(tempId);
    if exists i | 0 <= i < |tempId| :: IsAlnum(tempId[i]) {
      var i :| 0 <= i < |tempId| && IsAlnum(tempId[i]);
      assert tempId[i] != '_';
    }
    if IsValidTempId(tempId) {
      var i :| 0 <= i < |tempId| && tempId[i] != '_';
      assert IsAlnum(tempId[i]);
    }
  }

  /** The ids storing a file hands out, `gpx_` and sixteen hex digits, pass that test. */
  lemma GeneratedIdValid(token: string)
    requires |token| == 16 && forall i | 0 <= i < |token| :: IsHexDigit(token[i])
    ensures IsValidTempId("gpx_" + token)
  {
    var id := "gpx_" + token;
    ValidTempId(id);
    assert IsAlnum(id[0]);
    assert forall i | 4 <= i < |id| :: id[i] == token[i - 4];
  }

  /** The `.gpx` fix-up: the suffix is added only when it is missing. */
  function EnsureGpxSuffix(name: string): (r: string)
    ensures EndsWith(r, ".gpx")
    ensures EndsWith(name, ".gpx") ==> r == name
    ensures !EndsWith(name, ".gpx") ==> |r| == |name| + 4 && r[..|name|] == name
  {
    if EndsWith(name, ".gpx") then name
    else
      var r := name + ".gpx";
      assert r[|r| - 4..] == ".gpx";
      r
  }

  /** Fixing the suffix twice is fixing it once. */
  lemma EnsureGpxSuffixIdempotent(name: string)
    ensures EnsureGpxSuffix(EnsureGpxSuffix(name)) == EnsureGpxSuffix(name)
  {
  }

  /** What the metadata table holds for an id. */
  datatype Metadata = Metadata(name: string, created: real)

  /** The stored name: the original name unless it is missing or empty, else `route_<token>.gpx`. */
  function StoredName(originalName: Option<string>, token: string): (name: string)
    ensures originalName.Some? && originalName.value != [] ==> name == originalName.value
    ensures originalName.None? || originalName.value == [] ==> name == "route_" + token + ".gpx"
  {
    if originalName.Some? && originalName.value != [] then originalName.value
    else "route_" + token + ".gpx"
  }

  /**
    The name a download is offered under: the stored name, or `route_<token>.gpx`
    when the id has no metadata, passed through `secure_filename` and then fixed up.
   */
  function DownloadName(meta: Option<Metadata>, token: string, secure: string -> string): (f: string)
    ensures EndsWith(f, ".gpx")
    ensures meta.Some? ==> f == EnsureGpxSuffix(secure(meta.value.name))
  {
    var original := if meta.Some? then meta.value.name else "route_" + token + ".gpx";
    EnsureGpxSuffix(secure(original))
  }

  /** The tables as store_temp_file leaves them: the `hasattr` test always fails, so both start afresh. */
  function StoreAsWritten(files: map<string, string>, metadata: map<string, Metadata>,
                          tempId: string, path: string, m: Metadata): (t: (map<string, string>, map<string, Metadata>))
    ensures t.0.Keys == {tempId} && t.1.Keys == {tempId}
    ensures t.0[tempId] == path && t.1[tempId] == m
  {
    (map[tempId := path], map[tempId := m])
  }

  /** The tables as intended: the new entry is added and every other entry stays. */
  function StoreKeeping(files: map<string, string>, metadata: map<string, Metadata>,
                        tempId: string, path: string, m: Metadata): (t: (map<string, string>, map<string, Metadata>))
    ensures t.0.Keys == files.Keys + {tempId} && t.1.Keys == metadata.Keys + {tempId}
    ensures t.0[tempId] == path && t.1[tempId] == m
    ensures forall id | id in files && id != tempId :: t.0[id] == files[id]
    ensures forall id | id in metadata && id != tempId :: t.1[id] == metadata[id]
  {
    (files[tempId := path], metadata[tempId := m])
  }

  /**
    As written, storing a file forgets every file stored before it: an earlier id
    is no longer in either table, so its download answers 404.
   */
  lemma StoreForgetsEarlier(files: map<string, string>, metadata: map<string, Metadata>,
                            tempId: string, path: string, m: Metadata, earlier: string)
    requires earlier in files && earlier != tempId
    ensures earlier !in StoreAsWritten(files, metadata, tempId, path, m).0
    ensures earlier !in StoreAsWritten(files, metadata, tempId, path, m).1
    ensures earlier in StoreKeeping(files, metadata, tempId, path, m).0
  {
  }

  /** The creation time cleanup uses: the recorded one when it is set and not zero, else the file's mtime. */
  function CreatedTime(metadata: map<string, Metadata>, tempId: string, path: string, mtime: string -> real): (t: real)
    ensures tempId in metadata && metadata[tempId].created != 0.0 ==> t == metadata[tempId].created
    ensures tempId !in metadata || metadata[tempId].created == 0.0 ==> t == mtime(path)
  {
    if tempId in metadata && metadata[tempId].created != 0.0 then metadata[tempId].created
    else mtime(path)
  }

  /** An entry cleanup removes: its file is gone, or it is strictly older than an hour. */
  predicate Stale(files: map<string, string>, metadata: map<string, Metadata>, tempId: string,
                  fileExists: string -> bool, mtime: string -> real, now: real)
    requires tempId in files
    ensures !fileExists(files[tempId]) ==> Stale(files, metadata, tempId, fileExists, mtime, now)
    ensures fileExists(files[tempId]) && tempId in metadata && metadata[tempId].created != 0.0
            ==> (Stale(files, metadata, tempId, fileExists, mtime, now) <==> now - metadata[tempId].created > 3600.0)
  {
    !fileExists(files[tempId]) || now - CreatedTime(metadata, tempId, files[tempId], mtime) > MaxAge as real
  }

  /** The ids cleanup collects in `to_remove`. */
  function Expired(files: map<string, string>, metadata: map<string, Metadata>,
                   fileExists: string -> bool, mtime: string -> real, now: real): (s: set<string>)
    ensures s <= files.Keys
    ensures forall id | id in files :: id in s <==> Stale(files, metadata, id, fileExists, mtime, now)
  {
    set id | id in files && Stale(files, metadata, id, fileExists, mtime, now)
  }

  /**
    After cleanup an id is still stored exactly when it was stored, its file exists
    and it is at most an hour old; its path and metadata are unchanged.
   */
  lemma CleanupSurvivors(files: map<string, string>, metadata: map<string, Metadata>,
                         fileExists: string -> bool, mtime: string -> real, now: real, id: string)
    ensures var e := Expired(files, metadata, fileExists, mtime, now);
            id in files - e
            <==> id in files && fileExists(files[id]) && now - CreatedTime(metadata, id, files[id], mtime) <= MaxAge as real
    ensures var e := Expired(files, metadata, fileExists, mtime, now);
            id in files - e ==> (files - e)[id] == files[id]
    ensures var e := Expired(files, metadata, fileExists, mtime, now);
            id in metadata - e ==> (metadata - e)[id] == metadata[id]
  {
  }

  /** The age test is strict: an entry exactly an hour old whose file exists is kept. */
  lemma HourOldKept(files: map<string, string>, metadata: map<string, Metadata>,
                    fileExists: string -> bool, mtime: string -> real, now: real, id: string)
    requires id in files && fileExists(files[id])
    requires id in metadata && metadata[id].created == now - 3600.0 && metadata[id].created != 0.0
    ensures id !in Expired(files, metadata, fileExists, mtime, now)
  {
  }

  /** One more id looked at: it joins the collected ones exactly when it is stale. */
  lemma CollectStep(expired: set<string>, toRemove: set<string>, pending: set<string>, id: string, stale: bool)
    requires toRemove == expired - pending && id in pending && (id in expired <==> stale)
    ensures (if stale then toRemove + {id} else toRemove) == expired - (pending - {id})
  {
  }

  /** Before any pop the table is whole. */
  lemma RemoveNothing<V>(m: map<string, V>, removed: set<string>)
    ensures m - (removed - removed) == m
  {
    assert removed - removed == {};
  }

  /** One more id popped from a table. */
  lemma RemoveStep<V>(m: map<string, V>, removed: set<string>, rest: set<string>, id: string)
    requires id in rest && rest <= removed
    ensures (m - (removed - rest)) - {id} == m - (removed - (rest - {id}))
  {
  }

  /** The first loop of the cleanup: the ids whose file is gone or which are over an hour old. */
  method CollectStale(tempFiles: map<string, string>, tempFileMetadata: map<string, Metadata>,
                      fileExists: string -> bool, mtime: string -> real, now: real)
    returns (toRemove: set<string>)
    ensures toRemove == Expired(tempFiles, tempFileMetadata, fileExists, mtime, now)
  {
    ghost var expired := Expired(tempFiles, tempFileMetadata, fileExists, mtime, now);
    toRemove := {};
    var pending := tempFiles.Keys;
    while pending != {}
      invariant pending <= tempFiles.Keys
      invariant toRemove == expired - pending
      decreases |pending|
    {
      var tempId :| tempId in pending;
      var stale := false;
      if !fileExists(tempFiles[tempId]) {
        stale := true;
      } else {
        var createdTime := CreatedTime(tempFileMetadata, tempId, tempFiles[tempId], mtime);
        if now - createdTime > MaxAge as real {
          stale := true;
        }
      }
      CollectStep(expired, toRemove, pending, tempId, stale);
      if stale {
        toRemove := toRemove + {tempId};
      }
      pending := pending - {tempId};
    }
  }

  /** The two tables, held in the application's configuration and changed in place. */
  class TempFiles {
    var files: map<string, string>
    var metadata: map<string, Metadata>

    constructor ()
      ensures files == map[] && metadata == map[]
    {
      files := map[];
      metadata := map[];
    }

    /**
      store_temp_file as written: `path` is where the content was written, `token`
      the sixteen hex digits of the id, `nameToken` the eight of the default name.
     */
    method Store(path: string, token: string, nameToken: string, originalName: Option<string>, now: real)
      returns (tempId: string)
      modifies this
      ensures tempId == "gpx_" + token
      ensures (files, metadata)
           == StoreAsWritten(old(files), old(metadata), tempId, path, Metadata(StoredName(originalName, nameToken), now))
    {
      files := map[];
      metadata := map[];
      tempId := "gpx_" + token;
      files := files[tempId := path];
      metadata := metadata[tempId := Metadata(StoredName(originalName, nameToken), now)];
    }

    /** store_temp_file with the tables created only when they are missing. */
    method StoreKeepingEntries(path: string, token: string, nameToken: string, originalName: Option<string>, now: real)
      returns (tempId: string)
      modifies this
      ensures tempId == "gpx_" + token
      ensures (files, metadata)
           == StoreKeeping(old(files), old(metadata), tempId, path, Metadata(StoredName(originalName, nameToken), now))
    {
      tempId := "gpx_" + token;
      files := files[tempId := path];
      metadata := metadata[tempId := Metadata(StoredName(originalName, nameToken), now)];
    }

    /**
      cleanup_old_temp_files: collect the stale ids, then pop each from both
      tables. Returns how many ids were collected.
     */
    method Cleanup(fileExists: string -> bool, mtime: string -> real, now: real) returns (count: nat)
      modifies this
      ensures files == old(files) - Expired(old(files), old(metadata), fileExists, mtime, now)
      ensures metadata == old(metadata) - Expired(old(files), old(metadata), fileExists, mtime, now)
      ensures count == |Expired(old(files), old(metadata), fileExists, mtime, now)|
    {
      var tempFiles, tempFileMetadata := files, metadata;
      ghost var expired := Expired(tempFiles, tempFileMetadata, fileExists, mtime, now);
      var toRemove := CollectStale(tempFiles, tempFileMetadata, fileExists, mtime, now);
      var rest := toRemove;
      RemoveNothing(tempFiles, expired);
      RemoveNothing(tempFileMetadata, expired);
      while rest != {}
        invariant rest <= expired
        invariant files == tempFiles - (expired - rest)
        invariant metadata == tempFileMetadata - (expired - rest)
        decreases |rest|
      {
        var tempId :| tempId in rest;
        RemoveStep(tempFiles, expired, rest, tempId);
        RemoveStep(tempFileMetadata, expired, rest, tempId);
        files := files - {tempId};
        metadata := metadata - {tempId};
        rest := rest - {tempId};
      }
      assert expired - rest == expired;
      count := |toRemove|;
    }
  }
}
