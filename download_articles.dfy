/** Stage 2, seeking_alpha/download_articles.py: key every ledger reference by
    the text between `/article/` and the first `-`, drop the keys named by an
    archive file, and download the rest into numbered folders, writing at
    most 1000 articles to each folder in one run. Downloading a
    page and compressing it are replaced by two oracles over the article key:
    `fetch(key)` tells whether the download succeeded after all retries and
    `compress(key)` whether `gzip` succeeded. */
module DownloadArticles {
  import opened Common
  import opened Ledger

  /** `ID_PREFIX`. */
  const IdPrefix: string := "/article/"
  /** `GZ_EXTENSION`: the suffix of an archived article file. */
  const GzExtension: string := ".html.gz"
  /** Articles placed in one folder before moving on to the next. */
  const ArticlesPerFolder: nat := 1000
  /** Sanity bound on folder ids. */
  const MaxFolders: nat := 10000

  // ---------------------------------------------------------------------------
  // Keying the ledger (download_articles.py:44-55)
  // ---------------------------------------------------------------------------

  /** The key of one ledger line: the text after `/article/` up to the first
      `-` after it. A line without the prefix, or whose prefix is not followed
      by a non-empty key and a `-`, is fatal. */
  function ParseKey(line: string): (r: Result<string>)
    ensures r == Failure(NotAnArticle) <==> !StartsWith(line, IdPrefix)
    ensures r.Success? ==> r.value != []
  {
    if !StartsWith(line, IdPrefix) then Failure(NotAnArticle)
    else
      var q := Find(line, "-", |IdPrefix|);
      if q <= |IdPrefix| then Failure(NoKey)
      else Success(line[|IdPrefix|..q])
  }

  /** A parsed key is non-empty, holds no `-`, and the line is the prefix,
      the key and a `-`, followed by anything. */
  lemma ParseKeyShape(line: string)
    requires ParseKey(line).Success?
    ensures var key := ParseKey(line).value;
      key != [] && '-' !in key && StartsWith(line, IdPrefix + key + "-")
  {
    var q := Find(line, "-", |IdPrefix|);
    FindIsFirst(line, "-", |IdPrefix|);
    var key := line[|IdPrefix|..q];
    forall k | 0 <= k < |key| ensures key[k] != '-' {
      assert !OccursAt(line, "-", |IdPrefix| + k);
      assert line[|IdPrefix| + k..|IdPrefix| + k + 1] == [key[k]];
    }
    assert line[q..q + 1] == "-";
    assert line[..q + 1] == IdPrefix + key + "-";
  }

  /** Round trip: the line built from a key and any slug parses back to that
      key, whenever the key is non-empty and holds no `-`. */
  lemma ParseKeyComposed(key: string, slug: string)
    requires key != [] && '-' !in key
    ensures ParseKey(IdPrefix + key + "-" + slug) == Success(key)
  {
    var line := IdPrefix + key + "-" + slug;
    var q := |IdPrefix| + |key|;
    assert line[..|IdPrefix|] == IdPrefix;
    assert line[q..q + 1] == "-";
    forall i | |IdPrefix| <= i < q ensures !OccursAt(line, "-", i) {
      assert line[i..i + 1] == [key[i - |IdPrefix|]];
    }
    FindIsFirstOccurrence(line, "-", |IdPrefix|, q);
    assert line[|IdPrefix|..q] == key;
  }

  /** `/article/12345-some-slug` has the key `12345`. */
  lemma ParseKeyExample()
    ensures ParseKey("/article/12345-some-slug") == Success("12345")
  {
    ParseKeyComposed("12345", "some-slug");
    assert IdPrefix + "12345" + "-" + "some-slug" == "/article/12345-some-slug";
  }

  /** The key is missing exactly when the prefix is followed directly by a
      `-`, or by no `-` at all. */
  lemma ParseKeyNoKey(line: string)
    requires StartsWith(line, IdPrefix)
    ensures ParseKey(line) == Failure(NoKey) <==>
      (|line| > |IdPrefix| && line[|IdPrefix|] == '-') || '-' !in line[|IdPrefix|..]
  {
    var q := Find(line, "-", |IdPrefix|);
    FindIsFirst(line, "-", |IdPrefix|);
    if q == -1 {
      forall k | 0 <= k < |line| - |IdPrefix| ensures line[|IdPrefix|..][k] != '-' {
        assert !OccursAt(line, "-", |IdPrefix| + k);
        assert line[|IdPrefix| + k..|IdPrefix| + k + 1] == [line[|IdPrefix|..][k]];
      }
    } else {
      assert line[q..q + 1] == "-";
      assert line[|IdPrefix|..][q - |IdPrefix|] == '-';
      if q > |IdPrefix| {
        assert !OccursAt(line, "-", |IdPrefix|);
        assert line[|IdPrefix|..|IdPrefix| + 1] == [line[|IdPrefix|]];
      }
    }
  }

  /** Every line of the sequence has a key. */
  predicate AllParse(lines: seq<string>) {
    forall i :: 0 <= i < |lines| ==> ParseKey(lines[i]).Success?
  }

  /** No two lines of the sequence have the same key. */
  predicate DistinctKeys(lines: seq<string>)
    requires AllParse(lines)
  {
    forall i, j :: 0 <= i < j < |lines| ==> ParseKey(lines[i]).value != ParseKey(lines[j]).value
  }

  /** Storing one line under its key; a line without a key, or whose key is
      already stored, is fatal. */
  function StoreLine(m: map<string, string>, line: string): (r: Result<map<string, string>>)
    ensures r.Success? ==> && m.Keys < r.value.Keys && |r.value| == |m| + 1 && line in r.value.Values
                           && forall k :: k in m ==> r.value[k] == m[k]
    ensures r.Success? ==> exists k :: k !in m && r.value == m[k := line]
  {
    match ParseKey(line)
    case Failure(f) => Failure(f)
    case Success(key) => if key in m then Failure(DuplicateKey) else Success(m[key := line])
  }

  /** Reading `lines` in order into an `id_map` that holds `m`, stopping at
      the first fatal line. */
  function LoadLines(m: map<string, string>, lines: seq<string>): (r: Result<map<string, string>>)
    ensures r.Success? ==> |r.value| == |m| + |lines| && forall k :: k in m ==> k in r.value && r.value[k] == m[k]
    decreases |lines|
  {
    if lines == [] then Success(m)
    else match LoadLines(m, lines[..|lines| - 1])
      case Failure(f) => Failure(f)
      case Success(loaded) => StoreLine(loaded, lines[|lines| - 1])
  }

  /** `id_map` after reading `lines` into an empty map. */
  function BuildIdMap(lines: seq<string>): (r: Result<map<string, string>>)
    ensures r.Success? ==> |r.value| == |lines|
  {
    LoadLines(map[], lines)
  }

  /** The key of the `i`-th line is stored, and maps to that line. */
  predicate StoresLine(m: map<string, string>, lines: seq<string>, i: int)
    requires 0 <= i < |lines|
  {
    ParseKey(lines[i]).Success? && ParseKey(lines[i]).value in m && m[ParseKey(lines[i]).value] == lines[i]
  }

  /** Reading one more line into a loaded `id_map`. */
  lemma LoadLinesAppend(m0: map<string, string>, read: seq<string>, line: string, m: map<string, string>)
    requires LoadLines(m0, read) == Success(m)
    ensures LoadLines(m0, read + [line]) == StoreLine(m, line)
  {
    assert (read + [line])[..|read|] == read;
  }

  lemma BuildIdMapAppend(read: seq<string>, line: string, m: map<string, string>)
    requires BuildIdMap(read) == Success(m)
    ensures ParseKey(line).Failure? ==> BuildIdMap(read + [line]) == Failure(ParseKey(line).error)
    ensures ParseKey(line).Success? && ParseKey(line).value in m ==>
      BuildIdMap(read + [line]) == Failure(DuplicateKey)
    ensures ParseKey(line).Success? && ParseKey(line).value !in m ==>
      BuildIdMap(read + [line]) == Success(m[ParseKey(line).value := line])
  {
    LoadLinesAppend(map[], read, line, m);
  }

  /** A successful `id_map` stores every line under its key, holds nothing
      else, and has one entry per line. */
  lemma {:induction false} BuildIdMapContents(lines: seq<string>)
    requires BuildIdMap(lines).Success?
    ensures var m := BuildIdMap(lines).value;
      && (forall i :: 0 <= i < |lines| ==> StoresLine(m, lines, i))
      && (forall k :: k in m ==> m[k] in lines && ParseKey(m[k]) == Success(k))
      && |m| == |lines|
    decreases |lines|
  {
    if lines != [] {
      var init := lines[..|lines| - 1];
      var line := lines[|lines| - 1];
      assert lines == init + [line];
      BuildIdMapContents(init);
      var m := BuildIdMap(init).value;
      var key := ParseKey(line).value;
      BuildIdMapAppend(init, line, m);
      assert key !in m;
      var m' := m[key := line];
      forall i | 0 <= i < |lines| ensures StoresLine(m', lines, i) {
        if i < |init| {
          assert lines[i] == init[i];
          assert StoresLine(m, init, i);
        }
      }
      forall k | k in m' ensures m'[k] in lines && ParseKey(m'[k]) == Success(k) {
        if k != key {
          assert m'[k] == m[k];
        }
      }
      assert m'.Keys == m.Keys + {key};
    }
  }

  /** The condition under which one more line can be read: it has a key that
      no earlier line has. */
  lemma BuildIdMapStep(lines: seq<string>)
    requires lines != []
    ensures var init := lines[..|lines| - 1];
      var line := lines[|lines| - 1];
      BuildIdMap(lines).Success? <==>
        && BuildIdMap(init).Success?
        && ParseKey(line).Success?
        && forall i :: 0 <= i < |init| ==> ParseKey(init[i]) != ParseKey(line)
  {
    var init := lines[..|lines| - 1];
    var line := lines[|lines| - 1];
    assert lines == init + [line];
    if BuildIdMap(init).Success? && ParseKey(line).Success? {
      BuildIdMapContents(init);
      var m := BuildIdMap(init).value;
      var key := ParseKey(line).value;
      BuildIdMapAppend(init, line, m);
      if key in m {
        var i :| 0 <= i < |init| && init[i] == m[key];
        assert ParseKey(init[i]) == ParseKey(line);
      } else {
        forall i | 0 <= i < |init| ensures ParseKey(init[i]) != ParseKey(line) {
          assert StoresLine(m, init, i);
        }
      }
    }
  }

  /** Every line has a key and no key repeats, split at the last line. */
  lemma KeyedSplit(lines: seq<string>)
    requires lines != []
    ensures var init := lines[..|lines| - 1];
      var line := lines[|lines| - 1];
      (AllParse(lines) && DistinctKeys(lines)) <==>
        && AllParse(init) && DistinctKeys(init)
        && ParseKey(line).Success?
        && forall i :: 0 <= i < |init| ==> ParseKey(init[i]) != ParseKey(line)
  {
    var init := lines[..|lines| - 1];
    var line := lines[|lines| - 1];
    assert forall i :: 0 <= i < |init| ==> init[i] == lines[i];
  }

  /** Loading succeeds exactly when every line has a key and no key repeats,
      whether or not the lines themselves are equal. */
  lemma {:induction false} BuildIdMapSucceeds(lines: seq<string>)
    ensures BuildIdMap(lines).Success? <==> AllParse(lines) && DistinctKeys(lines)
    decreases |lines|
  {
    if lines != [] {
      BuildIdMapSucceeds(lines[..|lines| - 1]);
      BuildIdMapStep(lines);
      KeyedSplit(lines);
    }
  }

  /** A line that appears twice in the ledger is fatal. */
  lemma RepeatedLineIsFatal(lines: seq<string>, i: nat, j: nat)
    requires i < j < |lines| && lines[i] == lines[j]
    ensures BuildIdMap(lines).Failure?
  {
    BuildIdMapSucceeds(lines);
  }

  /** Reading `a + b` is reading `a`, then `b` into the result. */
  lemma {:induction false} LoadLinesConcat(m: map<string, string>, a: seq<string>, b: seq<string>)
    ensures LoadLines(m, a + b) == match LoadLines(m, a)
      case Failure(f) => Failure(f)
      case Success(loaded) => LoadLines(loaded, b)
    decreases |b|
  {
    if b == [] {
      assert a + b == a;
    } else {
      var b' := b[..|b| - 1];
      assert (a + b)[..|a + b| - 1] == a + b';
      LoadLinesConcat(m, a, b');
    }
  }

  /** Once loading has failed, the lines after the failing one are never read. */
  lemma BuildIdMapFailurePersists(a: seq<string>, b: seq<string>)
    requires BuildIdMap(a).Failure?
    ensures BuildIdMap(a + b) == BuildIdMap(a)
  {
    LoadLinesConcat(map[], a, b);
  }

  /** Having read every line of the `i`-th file. */
  lemma LoadFileDone(files: seq<LedgerFile>, i: nat, before: map<string, string>)
    requires i < |files|
    requires BuildIdMap(AllLines(files[..i])) == Success(before)
    ensures BuildIdMap(AllLines(files[..i + 1])) == LoadLines(before, files[i].lines)
  {
    assert files[..i + 1] == files[..i] + [files[i]];
    AllLinesAppend(files[..i], files[i]);
    LoadLinesConcat(map[], AllLines(files[..i]), files[i].lines);
  }

  /** A fatal line ends the reading of its file. */
  lemma LoadLinesStopsAtFailure(m: map<string, string>, lines: seq<string>, j: nat)
    requires j < |lines| && LoadLines(m, lines[..j + 1]).Failure?
    ensures LoadLines(m, lines) == LoadLines(m, lines[..j + 1])
  {
    LoadLinesConcat(m, lines[..j + 1], lines[j + 1..]);
    assert lines[..j + 1] + lines[j + 1..] == lines;
  }

  /** A fatal line in the `i`-th file ends the reading of the ledger. */
  lemma LedgerStopsAtFailure(files: seq<LedgerFile>, i: nat)
    requires i < |files| && BuildIdMap(AllLines(files[..i + 1])).Failure?
    ensures BuildIdMap(AllLines(files)) == BuildIdMap(AllLines(files[..i + 1]))
  {
    assert files == files[..i + 1] + files[i + 1..];
    AllLinesConcat(files[..i + 1], files[i + 1..]);
    BuildIdMapFailurePersists(AllLines(files[..i + 1]), AllLines(files[i + 1..]));
  }

  /** The loading loop of `main` (download_articles.py:44-55): every line of
      every `*.txt` file is keyed and stored in `id_map`, stopping at the
      first fatal line. */
  method LoadIdMap(idDir: seq<LedgerFile>) returns (r: Result<map<string, string>>)
    ensures r == BuildIdMap(LedgerLines(idDir))
  {
    var idFiles := TxtFiles(idDir);
    var idMap: map<string, string> := map[];
    for i := 0 to |idFiles|
      invariant BuildIdMap(AllLines(idFiles[..i])) == Success(idMap)
    {
      var stored := StoreLines(idMap, idFiles[i].lines);
      LoadFileDone(idFiles, i, idMap);
      if stored.Failure? {
        LedgerStopsAtFailure(idFiles, i);
        return stored;
      }
      idMap := stored.value;
    }
    assert idFiles[..|idFiles|] == idFiles;
    return Success(idMap);
  }

  /** The inner loop over the lines of one file, stopping at the first fatal
      line. */
  method StoreLines(m: map<string, string>, lines: seq<string>) returns (r: Result<map<string, string>>)
    ensures r == LoadLines(m, lines)
  {
    var idMap := m;
    for j := 0 to |lines|
      invariant LoadLines(m, lines[..j]) == Success(idMap)
    {
      LoadOneMore(m, lines, j, idMap);
      var stored := StoreOne(idMap, lines[j]);
      if stored.Failure? {
        LoadLinesStopsAtFailure(m, lines, j);
        return stored;
      }
      idMap := stored.value;
    }
    assert lines[..|lines|] == lines;
    return Success(idMap);
  }

  /** Loading one more line of a file is one more store. */
  lemma LoadOneMore(m: map<string, string>, lines: seq<string>, j: nat, loaded: map<string, string>)
    requires j < |lines| && LoadLines(m, lines[..j]) == Success(loaded)
    ensures LoadLines(m, lines[..j + 1]) == StoreLine(loaded, lines[j])
  {
    assert lines[..j + 1] == lines[..j] + [lines[j]];
    LoadLinesAppend(m, lines[..j], lines[j], loaded);
  }

  /** The body of the inner loop: the line must be an article path with a
      key not stored yet. */
  method StoreOne(idMap: map<string, string>, line: string) returns (r: Result<map<string, string>>)
    ensures r == StoreLine(idMap, line)
  {
    if !StartsWith(line, IdPrefix) {
      return Failure(NotAnArticle);
    }
    var q := Find(line, "-", |IdPrefix|);
    if q <= |IdPrefix| {
      return Failure(NoKey);
    }
    var key := line[|IdPrefix|..q];
    if key in idMap {
      return Failure(DuplicateKey);
    }
    return Success(idMap[key := line]);
  }

  // ---------------------------------------------------------------------------
  // Subtracting the archive (download_articles.py:58-68)
  // ---------------------------------------------------------------------------

  /** One entry of `os.listdir(article_dir)`: its name, whether it is a
      directory, and the names listed inside it when it is. */
  datatype DirEntry = DirEntry(name: string, isDir: bool, files: seq<string>)

  /** `article_folders`: the entries that are directories, in listing order. */
  function Folders(entries: seq<DirEntry>): (folders: seq<DirEntry>)
    ensures forall e :: e in folders <==> e in entries && e.isDir
    ensures |folders| <= |entries|
  {
    if entries == [] then []
    else (if entries[0].isDir then [entries[0]] else []) + Folders(entries[1..])
  }

  /** Python's `s[:n]`: a negative `n` counts from the end. */
  function PyPrefix(s: string, n: int): (r: string)
    ensures |r| <= |s| && r == s[..|r|]
  {
    if n < 0 then (if |s| + n <= 0 then [] else s[..|s| + n])
    else if n >= |s| then s
    else s[..n]
  }

  /** `article_file[:article_file.find('.')]`: the name up to its first dot. */
  function ArchivedKey(f: string): (key: string)
    ensures |key| <= |f| && key == f[..|key|]
  {
    PyPrefix(f, Find(f, ".", 0))
  }

  /** An archive file name is its key, a dot, and the rest; the key holds no
      dot. */
  lemma ArchivedKeyShape(f: string)
    requires EndsWith(f, GzExtension)
    ensures var key := ArchivedKey(f); '.' !in key && StartsWith(f, key + ".")
  {
    var d := Find(f, ".", 0);
    FindIsFirst(f, ".", 0);
    assert OccursAt(f, ".", |f| - |GzExtension|) by {
      assert f[|f| - |GzExtension|..][..1] == ".";
    }
    var key := f[..d];
    forall k | 0 <= k < |key| ensures key[k] != '.' {
      assert !OccursAt(f, ".", k);
      assert f[k..k + 1] == [key[k]];
    }
    assert f[d..d + 1] == ".";
    assert f[..d + 1] == key + ".";
  }

  /** Round trip: the file the script writes for a dot-free key is recognised
      as that key's archive. */
  lemma ArchivedKeyOfName(key: string)
    requires '.' !in key
    ensures ArchivedKey(key + GzExtension) == key
  {
    var f := key + GzExtension;
    assert f[|key|..|key| + 1] == ".";
    forall i | 0 <= i < |key| ensures !OccursAt(f, ".", i) {
      assert f[i..i + 1] == [key[i]];
    }
    FindIsFirstOccurrence(f, ".", 0, |key|);
    assert f[..|key|] == key;
  }

  /** The file written for a key that holds a dot is never recognised as that
      key's archive, so such an article is downloaded again on every run. */
  lemma DottedKeyNotRecognised(key: string)
    requires '.' in key
    ensures ArchivedKey(key + GzExtension) != key
  {
    var f := key + GzExtension;
    var d := Find(f, ".", 0);
    FindIsFirst(f, ".", 0);
    var i :| 0 <= i < |key| && key[i] == '.';
    assert f[i..i + 1] == ".";
    assert OccursAt(f, ".", i);
    assert 0 <= d <= i;
    assert ArchivedKey(f) == f[..d];
  }

  /** The keys of the archive files among `files`. */
  function KeysOfFiles(files: seq<string>): (keys: set<string>)
    decreases |files|
  {
    if files == [] then {}
    else
      var f := files[|files| - 1];
      KeysOfFiles(files[..|files| - 1]) + (if EndsWith(f, GzExtension) then {ArchivedKey(f)} else {})
  }

  /** The keys of the archive files in all the given folders. */
  function ArchivedKeys(folders: seq<DirEntry>): (keys: set<string>)
    decreases |folders|
  {
    if folders == [] then {}
    else ArchivedKeys(folders[..|folders| - 1]) + KeysOfFiles(folders[|folders| - 1].files)
  }

  lemma {:induction false} KeysOfFilesMembership(files: seq<string>, key: string)
    ensures key in KeysOfFiles(files) <==>
      exists f :: f in files && EndsWith(f, GzExtension) && ArchivedKey(f) == key
    decreases |files|
  {
    if files != [] {
      var init := files[..|files| - 1];
      assert files == init + [files[|files| - 1]];
      KeysOfFilesMembership(init, key);
    }
  }

  lemma {:induction false} ArchivedKeysMembership(folders: seq<DirEntry>, key: string)
    ensures key in ArchivedKeys(folders) <==>
      exists e, f :: e in folders && f in e.files && EndsWith(f, GzExtension) && ArchivedKey(f) == key
    decreases |folders|
  {
    if folders != [] {
      var init := folders[..|folders| - 1];
      var last := folders[|folders| - 1];
      assert folders == init + [last];
      ArchivedKeysMembership(init, key);
      KeysOfFilesMembership(last.files, key);
      if key in KeysOfFiles(last.files) {
        var f :| f in last.files && EndsWith(f, GzExtension) && ArchivedKey(f) == key;
        assert last in folders;
      }
      if key in ArchivedKeys(init) {
        var e, f :| e in init && f in e.files && EndsWith(f, GzExtension) && ArchivedKey(f) == key;
        assert e in folders;
      }
    }
  }

  /** After the archive scan, `id_map` holds exactly the ledger entries whose
      key is not the name of an archive file in some folder, each with its
      original line. */
  lemma PendingEntries(idMap: map<string, string>, entries: seq<DirEntry>, key: string)
    ensures var pending := idMap - ArchivedKeys(Folders(entries));
      && (key in pending <==>
            && key in idMap
            && !exists e, f :: e in entries && e.isDir && f in e.files && EndsWith(f, GzExtension) && ArchivedKey(f) == key)
      && (key in pending ==> pending[key] == idMap[key])
  {
    ArchivedKeysMembership(Folders(entries), key);
  }

  /** The archive scan of `main`: every `*.html.gz` file in every folder
      removes its key from `id_map`. */
  method RemoveArchived(idMap: map<string, string>, entries: seq<DirEntry>)
    returns (pending: map<string, string>)
    ensures pending == idMap - ArchivedKeys(Folders(entries))
  {
    var folders := Folders(entries);
    pending := idMap;
    for i := 0 to |folders|
      invariant pending == idMap - ArchivedKeys(folders[..i])
    {
      pending := RemoveFolder(pending, folders[i].files);
      ArchivedKeysStep(folders, i);
      SubtractTwice(idMap, ArchivedKeys(folders[..i]), KeysOfFiles(folders[i].files));
    }
    assert folders[..|folders|] == folders;
  }

  /** The inner loop over the files of one folder. */
  method RemoveFolder(idMap: map<string, string>, files: seq<string>) returns (pending: map<string, string>)
    ensures pending == idMap - KeysOfFiles(files)
  {
    pending := idMap;
    for j := 0 to |files|
      invariant pending == idMap - KeysOfFiles(files[..j])
    {
      var f := files[j];
      RemoveFileStep(idMap, files, j, pending);
      if EndsWith(f, GzExtension) {
        var articleId := ArchivedKey(f);
        if articleId in pending {
          pending := pending - {articleId};
        }
      }
    }
    assert files[..|files|] == files;
  }

  /** Scanning the `j`-th file of a folder. */
  lemma RemoveFileStep(m: map<string, string>, files: seq<string>, j: nat, pending: map<string, string>)
    requires j < |files|
    requires pending == m - KeysOfFiles(files[..j])
    ensures var done := m - KeysOfFiles(files[..j + 1]);
      && (!EndsWith(files[j], GzExtension) ==> pending == done)
      && (EndsWith(files[j], GzExtension) ==>
            var key := ArchivedKey(files[j]);
            (if key in pending then pending - {key} else pending) == done)
  {
    assert files[..j + 1][..j] == files[..j];
    if EndsWith(files[j], GzExtension) {
      RemoveOneMore(m, KeysOfFiles(files[..j]), ArchivedKey(files[j]));
    }
  }

  lemma ArchivedKeysStep(folders: seq<DirEntry>, i: nat)
    requires i < |folders|
    ensures ArchivedKeys(folders[..i + 1]) == ArchivedKeys(folders[..i]) + KeysOfFiles(folders[i].files)
  {
    assert folders[..i + 1][..i] == folders[..i];
  }

  lemma SubtractTwice(m: map<string, string>, a: set<string>, b: set<string>)
    ensures (m - a) - b == m - (a + b)
  {
  }

  /** Deleting one more key, when present, is subtracting it. */
  lemma RemoveOneMore(m: map<string, string>, removed: set<string>, key: string)
    ensures (if key in m - removed then (m - removed) - {key} else m - removed) == m - (removed + {key})
  {
  }

  // ---------------------------------------------------------------------------
  // The first new folder (download_articles.py:70-74)
  // ---------------------------------------------------------------------------

  /** The names of the given folders, in order. */
  function FolderNames(folders: seq<DirEntry>): (names: seq<string>)
    ensures |names| == |folders| && forall i :: 0 <= i < |folders| ==> names[i] == folders[i].name
  {
    if folders == [] then [] else [folders[0].name] + FolderNames(folders[1..])
  }

  /** `max` over strings: the greatest name in the lexicographic order. */
  function MaxName(names: seq<string>): (m: string)
    requires names != []
    ensures m in names && forall n :: n in names ==> LexLe(n, m)
    decreases |names|
  {
    if |names| == 1 then LexLeTotal(names[0], names[0]); names[0]
    else
      var rest := MaxName(names[1..]);
      LexLeTotal(names[0], rest);
      MaxNameBound(names, rest);
      if LexLe(names[0], rest) then rest else names[0]
  }

  lemma MaxNameBound(names: seq<string>, rest: string)
    requires |names| > 1 && rest in names[1..]
    requires forall n :: n in names[1..] ==> LexLe(n, rest)
    ensures LexLe(names[0], rest) ==> forall n :: n in names ==> LexLe(n, rest)
    ensures LexLe(rest, names[0]) ==> forall n :: n in names ==> LexLe(n, names[0])
  {
    assert names == [names[0]] + names[1..];
    if LexLe(rest, names[0]) {
      forall n | n in names ensures LexLe(n, names[0]) {
        if n == names[0] {
          LexLeTotal(n, n);
        } else {
          LexLeTransitive(n, rest, names[0]);
        }
      }
    }
  }

  predicate IsDigit(c: char) {
    '0' <= c <= '9'
  }

  predicate AllDigits(s: string) {
    forall i :: 0 <= i < |s| ==> IsDigit(s[i])
  }

  /** A name `int()` reads as a folder number: one or more decimal digits. */
  predicate IsDecimal(s: string) {
    s != [] && AllDigits(s)
  }

  /** The value of one decimal digit. */
  function DigitValue(c: char): (d: nat)
    requires IsDigit(c)
    ensures d < 10
  {
    c as int - '0' as int
  }

  function Pow10(n: nat): (p: nat)
    ensures p >= 1
  {
    if n == 0 then 1 else 10 * Pow10(n - 1)
  }

  /** `int(s)` for a string of decimal digits (leading zeros allowed). */
  function DecimalValue(s: string): (v: nat)
    requires AllDigits(s)
    ensures v < Pow10(|s|)
    decreases |s|
  {
    if s == [] then 0
    else
      assert IsDigit(s[0]);
      var d := DigitValue(s[0]);
      var rest := DecimalValue(s[1..]);
      DigitPlaceBound(d, Pow10(|s| - 1), rest);
      d * Pow10(|s| - 1) + rest
  }

  /** A digit in front of a smaller number stays below the next power. */
  lemma DigitPlaceBound(d: nat, p: nat, rest: nat)
    requires d < 10 && rest < p
    ensures d * p + rest < 10 * p
  {
    assert d * p <= 9 * p;
  }

  /** `base_folder_id`: 0 without folders, else one past the number of the
      greatest folder name. */
  function BaseFolderId(names: seq<string>): (base: nat)
    requires names != [] ==> IsDecimal(MaxName(names))
    ensures base == 0 <==> names == []
  {
    if names == [] then 0 else DecimalValue(MaxName(names)) + 1
  }

  /** Among digit strings of one length, the lexicographic order is the
      numeric order: string order implies numeric order here, and
      `NumericIsLexLe` gives the converse. */
  lemma {:induction false} LexLeDigitsIsNumeric(a: string, b: string)
    requires |a| == |b| && AllDigits(a) && AllDigits(b)
    requires LexLe(a, b)
    ensures DecimalValue(a) <= DecimalValue(b)
    decreases |a|
  {
    if a != [] {
      if a[0] == b[0] {
        DecimalValueHead(a);
        DecimalValueHead(b);
        LexLeDigitsIsNumeric(a[1..], b[1..]);
      } else {
        SmallerLeadingDigit(a, b);
      }
    }
  }

  /** The converse: for digit strings of one length, numeric order implies
      string order. */
  lemma {:induction false} NumericIsLexLe(a: string, b: string)
    requires |a| == |b| && AllDigits(a) && AllDigits(b)
    requires DecimalValue(a) <= DecimalValue(b)
    ensures LexLe(a, b)
    decreases |a|
  {
    if a != [] {
      if a[0] == b[0] {
        DecimalValueHead(a);
        DecimalValueHead(b);
        NumericIsLexLe(a[1..], b[1..]);
      } else if b[0] < a[0] {
        SmallerLeadingDigit(b, a);
        assert false;
      }
    }
  }

  /** The leading digit weighs its power of ten. */
  lemma DecimalValueHead(s: string)
    requires s != [] && AllDigits(s)
    ensures IsDigit(s[0]) && AllDigits(s[1..])
    ensures DecimalValue(s) == DigitValue(s[0]) * Pow10(|s| - 1) + DecimalValue(s[1..])
  {
    assert IsDigit(s[0]);
    assert forall i :: 0 <= i < |s| - 1 ==> s[1..][i] == s[i + 1];
  }

  /** Of two digit strings of one length, the one with the smaller leading
      digit is the smaller number. */
  lemma SmallerLeadingDigit(a: string, b: string)
    requires |a| == |b| && a != [] && AllDigits(a) && AllDigits(b)
    requires a[0] < b[0]
    ensures DecimalValue(a) < DecimalValue(b)
  {
    DecimalValueHead(a);
    DecimalValueHead(b);
    PositionalLess(DigitValue(a[0]), DigitValue(b[0]), Pow10(|a| - 1),
                   DecimalValue(a[1..]), DecimalValue(b[1..]));
  }

  lemma PositionalLess(da: nat, db: nat, p: nat, ra: nat, rb: nat)
    requires da < db && ra < p
    ensures da * p + ra < db * p + rb
  {
    assert (da + 1) * p <= db * p;
  }

  /** When every folder name has the same number of digits, as the `%04d`
      names the script creates do, the first new folder lies past every
      existing one and right after the greatest. */
  lemma BaseFolderAboveExisting(names: seq<string>)
    requires forall n :: n in names ==> AllDigits(n) && |n| == 4
    ensures forall n :: n in names ==> DecimalValue(n) < BaseFolderId(names)
    ensures names != [] ==> exists n :: n in names && BaseFolderId(names) == DecimalValue(n) + 1
  {
    if names != [] {
      var m := MaxName(names);
      forall n | n in names ensures DecimalValue(n) < BaseFolderId(names) {
        LexLeDigitsIsNumeric(n, m);
      }
    }
  }

  /** Folder names of different lengths break that: with folders `0100` and
      `99` the string maximum is `99`, so the first new folder number is 100,
      and its `%04d` name `0100` is a folder that already exists. */
  lemma MixedWidthNamesReuseFolder()
    ensures BaseFolderId(["0100", "99"]) == 100
    ensures FolderName(BaseFolderId(["0100", "99"])) in ["0100", "99"]
  {
    assert !LexLe("99", "0100");
    assert MaxName(["0100", "99"]) == "99";
    assert FolderName(100) == "0100";
  }

  /** `'%04d' % folder_id` for a folder id below 10000. */
  function FolderName(id: nat): (name: string)
    requires id < MaxFolders
    ensures |name| == 4 && AllDigits(name)
  {
    [Digit(id / 1000), Digit(id / 100 % 10), Digit(id / 10 % 10), Digit(id % 10)]
  }

  function Digit(d: nat): (c: char)
    requires d < 10
    ensures IsDigit(c)
  {
    ('0' as int + d) as char
  }

  lemma DigitRoundTrip(d: nat)
    requires d < 10
    ensures IsDigit(Digit(d)) && DigitValue(Digit(d)) == d
  {
  }

  /** Round trip: a folder the script creates is named with four digits that
      read back as its id. */
  lemma FolderNameRoundTrip(id: nat)
    requires id < MaxFolders
    ensures IsDecimal(FolderName(id)) && |FolderName(id)| == 4
    ensures DecimalValue(FolderName(id)) == id
  {
    var s := FolderName(id);
    DigitRoundTrip(id / 1000);
    DigitRoundTrip(id / 100 % 10);
    DigitRoundTrip(id / 10 % 10);
    DigitRoundTrip(id % 10);
    assert AllDigits(s);
    DecimalValueHead(s);
    DecimalValueHead(s[1..]);
    assert s[1..][1..] == s[2..];
    DecimalValueHead(s[2..]);
    assert s[2..][1..] == s[3..];
    DecimalValueHead(s[3..]);
    assert s[3..][1..] == [];
    assert Pow10(1) == 10 && Pow10(2) == 100 && Pow10(3) == 1000;
    FourDigits(id);
  }

  lemma FourDigits(id: nat)
    requires id < MaxFolders
    ensures (id / 1000) * 1000 + (id / 100 % 10) * 100 + (id / 10 % 10) * 10 + id % 10 == id
  {
    var a := id / 10;
    var b := id / 100;
    assert id == a * 10 + id % 10;
    assert a / 10 == b;
    assert a == b * 10 + a % 10;
    assert b / 10 == id / 1000;
    assert b == (id / 1000) * 10 + b % 10;
  }

  // ---------------------------------------------------------------------------
  // The download loop (download_articles.py:76-98)
  // ---------------------------------------------------------------------------

  /** The folder of the item processed when `count` items were processed
      before it. */
  function ShardOf(base: nat, count: nat): (folder: nat)
    ensures base <= folder
    ensures (folder - base) * ArticlesPerFolder <= count < (folder - base + 1) * ArticlesPerFolder
  {
    base + count / ArticlesPerFolder
  }

  /** Items 0 to 999 go to the base folder and item 1000 to the next; later
      items never go to an earlier folder, and no folder receives more than
      1000 items. */
  lemma ShardProperties(base: nat, i: nat, j: nat)
    ensures i < ArticlesPerFolder ==> ShardOf(base, i) == base
    ensures ShardOf(base, ArticlesPerFolder) == base + 1
    ensures i <= j ==> ShardOf(base, i) <= ShardOf(base, j)
    ensures i <= j && ShardOf(base, i) == ShardOf(base, j) ==> j - i < ArticlesPerFolder
  {
    if i <= j && ShardOf(base, i) == ShardOf(base, j) {
      var q := i / ArticlesPerFolder;
      assert q * ArticlesPerFolder <= i;
      assert j < (q + 1) * ArticlesPerFolder;
    }
  }

  /** The loop state: the three counters, the folders ensured to exist, and
      the folder each archived article was written to. */
  datatype Progress = Progress(count: nat, succeeded: nat, failed: nat,
                               folders: set<nat>, written: map<string, nat>)

  const Start: Progress := Progress(0, 0, 0, {}, map[])

  /** One iteration for `key`: the folder limit is checked first; then the
      folder is created, `count` grows, and a failed download only counts as
      failed, while a successful one is compressed into the folder, a failed
      compression being fatal. */
  function DownloadStep(p: Progress, key: string, base: nat,
                        fetch: string -> bool, compress: string -> bool): (r: (Progress, Option<Fault>))
    ensures r.0.count - p.count == (r.0.succeeded - p.succeeded) + (r.0.failed - p.failed) <= 1
    ensures r.0.count == (if r.1 == Some(FolderLimit) then p.count else p.count + 1)
    ensures r.0.written.Keys <= p.written.Keys + {key}
  {
    var folder := ShardOf(base, p.count);
    if folder >= MaxFolders then (p, Some(FolderLimit))
    else
      var entered := p.(count := p.count + 1, folders := p.folders + {folder});
      if !fetch(key) then (entered.(failed := p.failed + 1), None)
      else
        var fetched := entered.(succeeded := p.succeeded + 1);
        if !compress(key) then (fetched, Some(GzipFailed))
        else (fetched.(written := p.written[key := folder]), None)
  }

  /** The loop over the keys in `order`, stopping at the first fault. */
  function DownloadSpec(order: seq<string>, base: nat,
                        fetch: string -> bool, compress: string -> bool): (r: (Progress, Option<Fault>))
    ensures r.0.written.Keys <= Elements(order)
    decreases |order|
  {
    if order == [] then (Start, None)
    else
      var (p, fault) := DownloadSpec(order[..|order| - 1], base, fetch, compress);
      if fault.Some? then (p, fault)
      else DownloadStep(p, order[|order| - 1], base, fetch, compress)
  }

  /** `count == succeeded + failed` throughout, and a run without a fault
      processes every key. */
  lemma {:induction false} DownloadCounters(order: seq<string>, base: nat,
                                            fetch: string -> bool, compress: string -> bool)
    ensures var (p, fault) := DownloadSpec(order, base, fetch, compress);
      && p.count == p.succeeded + p.failed
      && p.count <= |order|
      && (fault.None? ==> p.count == |order|)
    decreases |order|
  {
    if order != [] {
      DownloadCounters(order[..|order| - 1], base, fetch, compress);
    }
  }

  /** A run ends without a fault exactly when no item reaches folder 10000
      and every downloaded item compresses. */
  lemma {:induction false} DownloadFaultFree(order: seq<string>, base: nat,
                                             fetch: string -> bool, compress: string -> bool)
    ensures DownloadSpec(order, base, fetch, compress).1 == None <==>
      forall i :: 0 <= i < |order| ==>
        ShardOf(base, i) < MaxFolders && (fetch(order[i]) ==> compress(order[i]))
    decreases |order|
  {
    if order != [] {
      var init := order[..|order| - 1];
      DownloadFaultFree(init, base, fetch, compress);
      DownloadCounters(init, base, fetch, compress);
      assert forall i :: 0 <= i < |init| ==> init[i] == order[i];
    }
  }

  /** No two positions hold the same key. */
  predicate Distinct(order: seq<string>) {
    forall i, j :: 0 <= i < j < |order| ==> order[i] != order[j]
  }

  /** The last step of a fault-free run, for the key at position `|init|`. */
  lemma DownloadLastStep(order: seq<string>, base: nat, fetch: string -> bool, compress: string -> bool)
    requires order != []
    requires DownloadSpec(order, base, fetch, compress).1 == None
    ensures var init := order[..|order| - 1];
      var key := order[|order| - 1];
      var before := DownloadSpec(init, base, fetch, compress);
      var after := DownloadSpec(order, base, fetch, compress).0;
      var folder := ShardOf(base, |init|);
      && before.1 == None
      && after.folders == before.0.folders + {folder}
      && after.written == (if fetch(key) then before.0.written[key := folder] else before.0.written)
      && after.succeeded == before.0.succeeded + (if fetch(key) then 1 else 0)
  {
    DownloadCounters(order[..|order| - 1], base, fetch, compress);
  }

  /** Without a fault, exactly the keys whose download succeeded were
      written, the `i`-th to folder `base + i/1000`. */
  lemma {:induction false} DownloadWritten(order: seq<string>, base: nat,
                                           fetch: string -> bool, compress: string -> bool)
    requires Distinct(order)
    requires DownloadSpec(order, base, fetch, compress).1 == None
    ensures var written := DownloadSpec(order, base, fetch, compress).0.written;
      && (forall k :: k in written <==> k in order && fetch(k))
      && (forall i :: 0 <= i < |order| && fetch(order[i]) ==> written[order[i]] == ShardOf(base, i))
    decreases |order|
  {
    if order != [] {
      var init := order[..|order| - 1];
      var key := order[|order| - 1];
      assert order == init + [key];
      assert Distinct(init);
      DownloadLastStep(order, base, fetch, compress);
      DownloadWritten(init, base, fetch, compress);
      forall i | 0 <= i < |init| ensures order[i] == init[i] && init[i] != key {
      }
    }
  }

  /** Without a fault, the folders created are those of positions 0 to
      `|order| - 1`: one per 1000 items. */
  lemma {:induction false} DownloadFolders(order: seq<string>, base: nat,
                                           fetch: string -> bool, compress: string -> bool)
    requires DownloadSpec(order, base, fetch, compress).1 == None
    ensures DownloadSpec(order, base, fetch, compress).0.folders ==
      set i | 0 <= i < |order| :: ShardOf(base, i)
    decreases |order|
  {
    if order != [] {
      var init := order[..|order| - 1];
      DownloadLastStep(order, base, fetch, compress);
      DownloadFolders(init, base, fetch, compress);
      assert (set i | 0 <= i < |order| :: ShardOf(base, i))
          == (set i | 0 <= i < |init| :: ShardOf(base, i)) + {ShardOf(base, |init|)};
    }
  }

  /** Without a fault and with each key once, `succeeded` counts the written
      articles (and so `failed` the others). */
  lemma {:induction false} DownloadSucceeded(order: seq<string>, base: nat,
                                             fetch: string -> bool, compress: string -> bool)
    requires Distinct(order)
    requires DownloadSpec(order, base, fetch, compress).1 == None
    ensures var p := DownloadSpec(order, base, fetch, compress).0;
      p.succeeded == |p.written| && p.failed == |order| - |p.written|
    decreases |order|
  {
    DownloadCounters(order, base, fetch, compress);
    if order != [] {
      var init := order[..|order| - 1];
      var key := order[|order| - 1];
      assert Distinct(init);
      DownloadLastStep(order, base, fetch, compress);
      DownloadSucceeded(init, base, fetch, compress);
      DownloadWritten(init, base, fetch, compress);
      var written := DownloadSpec(init, base, fetch, compress).0.written;
      if fetch(key) {
        assert written[key := ShardOf(base, |init|)].Keys == written.Keys + {key};
      }
    }
  }

  /** Once a fault has happened, the later keys are never processed. */
  lemma {:induction false} DownloadFaultPersists(order: seq<string>, n: nat, base: nat,
                                                 fetch: string -> bool, compress: string -> bool)
    requires n <= |order|
    requires DownloadSpec(order[..n], base, fetch, compress).1.Some?
    ensures DownloadSpec(order, base, fetch, compress) == DownloadSpec(order[..n], base, fetch, compress)
    decreases |order|
  {
    if n < |order| {
      var init := order[..|order| - 1];
      assert init[..n] == order[..n];
      DownloadFaultPersists(init, n, base, fetch, compress);
    } else {
      assert order[..n] == order;
    }
  }

  /** The download loop of `main`, over the keys in iteration order. */
  method DownloadAll(order: seq<string>, base: nat, fetch: string -> bool, compress: string -> bool)
    returns (p: Progress, fault: Option<Fault>)
    ensures (p, fault) == DownloadSpec(order, base, fetch, compress)
  {
    p := Start;
    for i := 0 to |order|
      invariant DownloadSpec(order[..i], base, fetch, compress) == (p, None)
    {
      DownloadOneMore(order, i, base, fetch, compress, p);
      var next, f := DownloadOne(p, order[i], base, fetch, compress);
      if f.Some? {
        DownloadFaultPersists(order, i + 1, base, fetch, compress);
        return next, f;
      }
      p := next;
    }
    assert order[..|order|] == order;
    return p, None;
  }

  /** The body of the loop for one key: the folder limit, creating the
      folder, counting, downloading, and compressing into the folder. */
  method DownloadOne(p: Progress, key: string, base: nat, fetch: string -> bool, compress: string -> bool)
    returns (next: Progress, fault: Option<Fault>)
    ensures (next, fault) == DownloadStep(p, key, base, fetch, compress)
  {
    var folderId := base + p.count / ArticlesPerFolder;
    if folderId >= MaxFolders {
      return p, Some(FolderLimit);
    }
    next := p.(folders := p.folders + {folderId});
    next := next.(count := p.count + 1);
    if !fetch(key) {
      return next.(failed := p.failed + 1), None;
    }
    next := next.(succeeded := p.succeeded + 1);
    if !compress(key) {
      return next, Some(GzipFailed);
    }
    next := next.(written := p.written[key := folderId]);
    return next, None;
  }

  /** The run over one more key is one more step. */
  lemma DownloadOneMore(order: seq<string>, i: nat, base: nat, fetch: string -> bool,
                        compress: string -> bool, p: Progress)
    requires i < |order| && DownloadSpec(order[..i], base, fetch, compress) == (p, None)
    ensures DownloadSpec(order[..i + 1], base, fetch, compress) == DownloadStep(p, order[i], base, fetch, compress)
  {
    assert order[..i + 1][..i] == order[..i];
  }

  /** `id_map.iteritems()`: the keys of the map, each once, in an order the
      model leaves open. */
  method IterationOrder(m: map<string, string>) returns (order: seq<string>)
    ensures Distinct(order) && Elements(order) == m.Keys && |order| == |m|
  {
    var rest := m.Keys;
    order := [];
    while rest != {}
      invariant Listed(m.Keys, order, rest)
      decreases |rest|
    {
      var k :| k in rest;
      ListOneMore(m.Keys, order, rest, k);
      order := order + [k];
      rest := rest - {k};
    }
    assert Elements(order) + {} == Elements(order);
  }

  /** `order` lists the keys visited so far, each once; `rest` holds the
      others. */
  predicate Listed(keys: set<string>, order: seq<string>, rest: set<string>) {
    && Distinct(order) && Elements(order) !! rest && Elements(order) + rest == keys
    && |order| + |rest| == |keys|
  }

  lemma ListOneMore(keys: set<string>, order: seq<string>, rest: set<string>, k: string)
    requires Listed(keys, order, rest) && k in rest
    ensures Listed(keys, order + [k], rest - {k})
  {
    ElementsAppend(order, k);
    DistinctAppend(order, k);
  }

  lemma DistinctAppend(order: seq<string>, k: string)
    requires Distinct(order) && k !in order
    ensures Distinct(order + [k])
  {
  }

  /** The folder names `max` and `int()` are applied to read as numbers. */
  predicate NumberedFolders(articleDir: seq<DirEntry>) {
    var names := FolderNames(Folders(articleDir));
    names != [] ==> IsDecimal(MaxName(names))
  }

  /** `main`: load `id_map`, drop archived articles, find the first new
      folder and download the rest in iteration order `order`. */
  method Run(idDir: seq<LedgerFile>, articleDir: seq<DirEntry>,
             fetch: string -> bool, compress: string -> bool)
    returns (order: seq<string>, p: Progress, fault: Option<Fault>)
    requires NumberedFolders(articleDir)
    ensures var loaded := BuildIdMap(LedgerLines(idDir));
      loaded.Failure? ==> order == [] && p == Start && fault == Some(loaded.error)
    ensures var loaded := BuildIdMap(LedgerLines(idDir));
      loaded.Success? ==>
        var pending := loaded.value - ArchivedKeys(Folders(articleDir));
        && Distinct(order) && Elements(order) == pending.Keys
        && (p, fault) == DownloadSpec(order, BaseFolderId(FolderNames(Folders(articleDir))), fetch, compress)
    ensures var loaded := BuildIdMap(LedgerLines(idDir));
      loaded.Success? && loaded.value.Keys <= ArchivedKeys(Folders(articleDir)) ==>
        p == Start && fault == None
  {
    var loaded := LoadIdMap(idDir);
    if loaded.Failure? {
      return [], Start, Some(loaded.error);
    }
    var pending := RemoveArchived(loaded.value, articleDir);
    var base := BaseFolderId(FolderNames(Folders(articleDir)));
    order := IterationOrder(pending);
    p, fault := DownloadAll(order, base, fetch, compress);
    if loaded.value.Keys <= ArchivedKeys(Folders(articleDir)) {
      assert pending.Keys == {};
      assert order == [];
    }
  }
}
