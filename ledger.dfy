/** The ledger directory shared by both stages: every `*.txt` file in it holds
    article references, one per line, and the ledger is all of their lines
    (download_index.py:75-81, download_articles.py:44-49). Reading the
    directory and splitting a file into lines are filesystem work; the model
    receives the directory as the list of its entries, each already split. */
module Ledger {
  import opened Common

  /** One entry of `os.listdir(id_dir)` with the result of
      `open(...).read().splitlines()` on it. */
  datatype LedgerFile = LedgerFile(name: string, lines: seq<string>)

  const TxtExtension: string := ".txt"

  /** `[f for f in os.listdir(id_dir) if f.endswith('.txt')]`, keeping the
      listing order. */
  function TxtFiles(dir: seq<LedgerFile>): (files: seq<LedgerFile>)
    ensures forall f :: f in files <==> f in dir && EndsWith(f.name, TxtExtension)
    ensures |files| <= |dir|
  {
    if dir == [] then []
    else (if EndsWith(dir[0].name, TxtExtension) then [dir[0]] else []) + TxtFiles(dir[1..])
  }

  /** The lines of the given files, file after file, in order. */
  function AllLines(files: seq<LedgerFile>): (lines: seq<string>)
  {
    if files == [] then [] else AllLines(files[..|files| - 1]) + files[|files| - 1].lines
  }

  /** Lines of the ledger directory in the order the scripts read them. */
  function LedgerLines(dir: seq<LedgerFile>): (lines: seq<string>)
  {
    AllLines(TxtFiles(dir))
  }

  /** The set `old_ids` that download_index.py builds: every line of every
      `*.txt` file. */
  function LedgerIds(dir: seq<LedgerFile>): (ids: set<string>)
  {
    Elements(LedgerLines(dir))
  }

  function Elements(lines: seq<string>): (s: set<string>)
  {
    set line | line in lines
  }

  lemma ElementsAppend(lines: seq<string>, line: string)
    ensures Elements(lines + [line]) == Elements(lines) + {line}
  {
  }

  lemma AllLinesAppend(files: seq<LedgerFile>, f: LedgerFile)
    ensures AllLines(files + [f]) == AllLines(files) + f.lines
  {
    assert (files + [f])[..|files|] == files;
  }

  lemma {:induction false} AllLinesConcat(a: seq<LedgerFile>, b: seq<LedgerFile>)
    ensures AllLines(a + b) == AllLines(a) + AllLines(b)
    decreases |b|
  {
    if b == [] {
      assert a + b == a;
    } else {
      var b' := b[..|b| - 1];
      var f := b[|b| - 1];
      assert a + b == (a + b') + [f];
      assert b == b' + [f];
      AllLinesAppend(a + b', f);
      AllLinesAppend(b', f);
      AllLinesConcat(a, b');
    }
  }

  /** A line is in the ledger exactly when some file of it holds that line. */
  lemma {:induction false} AllLinesMembership(files: seq<LedgerFile>, line: string)
    ensures line in AllLines(files) <==> exists f :: f in files && line in f.lines
    decreases |files|
  {
    if files != [] {
      var init := files[..|files| - 1];
      var last := files[|files| - 1];
      assert files == init + [last];
      AllLinesMembership(init, line);
      if line in AllLines(files) && line !in last.lines {
        var f :| f in init && line in f.lines;
        assert f in files;
      }
      if f :| f in files && line in f.lines {
        if f != last {
          assert f in init;
        }
      }
    }
  }

  /** `old_ids` is the union of the lines of all `*.txt` files; files with any
      other name are ignored. */
  lemma LedgerIdsAreTxtLines(dir: seq<LedgerFile>, line: string)
    ensures line in LedgerIds(dir) <==>
      exists f :: f in dir && EndsWith(f.name, TxtExtension) && line in f.lines
  {
    AllLinesMembership(TxtFiles(dir), line);
  }

  /** Reading two ledger directories together yields the union of what each
      yields alone. */
  lemma LedgerIdsUnion(d1: seq<LedgerFile>, d2: seq<LedgerFile>)
    ensures LedgerIds(d1 + d2) == LedgerIds(d1) + LedgerIds(d2)
  {
    forall line
      ensures line in LedgerIds(d1 + d2) <==> line in LedgerIds(d1) || line in LedgerIds(d2)
    {
      LedgerIdsAreTxtLines(d1 + d2, line);
      LedgerIdsAreTxtLines(d1, line);
      LedgerIdsAreTxtLines(d2, line);
    }
  }

  /** The loop at download_index.py:76-81: `old_ids` starts empty and every line
      of every `*.txt` file is added to it. */
  method LoadOldIds(dir: seq<LedgerFile>) returns (oldIds: set<string>)
    ensures oldIds == LedgerIds(dir)
  {
    var idFiles := TxtFiles(dir);
    oldIds := {};
    for i := 0 to |idFiles|
      invariant oldIds == Elements(AllLines(idFiles[..i]))
    {
      oldIds := AddLines(oldIds, idFiles[i].lines);
      ElementsOfFiles(idFiles, i);
    }
    assert idFiles[..|idFiles|] == idFiles;
  }

  /** The inner loop: every line of one file is added to `ids`. */
  method AddLines(ids: set<string>, lines: seq<string>) returns (r: set<string>)
    ensures r == ids + Elements(lines)
  {
    r := ids;
    for j := 0 to |lines|
      invariant r == ids + Elements(lines[..j])
    {
      ElementsOneMore(lines, j);
      r := r + {lines[j]};
    }
    assert lines[..|lines|] == lines;
  }

  lemma ElementsOneMore(lines: seq<string>, j: nat)
    requires j < |lines|
    ensures Elements(lines[..j + 1]) == Elements(lines[..j]) + {lines[j]}
  {
    assert lines[..j + 1] == lines[..j] + [lines[j]];
    ElementsAppend(lines[..j], lines[j]);
  }

  lemma ElementsOfFiles(files: seq<LedgerFile>, i: nat)
    requires i < |files|
    ensures Elements(AllLines(files[..i + 1]))
         == Elements(AllLines(files[..i])) + Elements(files[i].lines)
  {
    assert files[..i + 1] == files[..i] + [files[i]];
    AllLinesAppend(files[..i], files[i]);
  }
}
