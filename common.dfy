/** Values shared by both scraper stages: the outcome of a run that may stop on
    one of the scripts' fatal `assert`s, and the few Python string operations
    the scripts rely on (`str.find`, `str.startswith`, `str.endswith`, `<=` on
    `str`). */
module Common {

  datatype Option<+T> = None | Some(value: T)

  /** Every `assert` in the two scripts that can stop a run. */
  datatype Fault =
    // download_index.py
    | UnclosedMarker     // `assert q > p` in extract_ids: a marker without a closing quote
    | OutputExists       // `assert not os.path.isfile(output_file)`
    | FetchFailed        // `assert not TERMINATE_ON_DOWNLOAD_FAILURES`
    | TooManyIds         // `assert len(page_ids) <= MAX_IDS_PER_PAGE`
    | NothingNew         // `assert len(new_ids) > 0`
    // download_articles.py
    | NotAnArticle       // `assert line.startswith(ID_PREFIX)`
    | NoKey              // `assert q > len(ID_PREFIX)`
    | DuplicateKey       // `assert key not in id_map`
    | FolderLimit        // `assert folder_id < 10000`
    | GzipFailed         // `assert gzip(WGET_OUTPUT, output_file)`

  datatype Result<+T> = Success(value: T) | Failure(error: Fault)

  /** `pat` occurs in `s` starting at index `i`. */
  predicate OccursAt(s: string, pat: string, i: int) {
    0 <= i && i + |pat| <= |s| && s[i..i + |pat|] == pat
  }

  /** Python's `s.find(pat, start)`: the lowest index at or after `start`
      where `pat` occurs, or -1 when there is none (`FindIsFirst` below). Its
      own contract only bounds the answer, so that the full characterization
      is brought in by the proofs that need it. */
  function Find(s: string, pat: string, start: nat): (r: int)
    ensures r == -1 || (start <= r && r + |pat| <= |s|)
    decreases |s| - start
  {
    if start + |pat| > |s| then -1
    else if MatchesFrom(s, pat, start, 0) then start
    else Find(s, pat, start + 1)
  }

  /** `pat[k..]` matches `s` at `i + k`, compared character by character. */
  predicate MatchesFrom(s: string, pat: string, i: nat, k: nat)
    requires i + |pat| <= |s| && k <= |pat|
    decreases |pat| - k
  {
    k == |pat| || (s[i + k] == pat[k] && MatchesFrom(s, pat, i, k + 1))
  }

  lemma {:induction false} MatchesFromIsSliceEquality(s: string, pat: string, i: nat, k: nat)
    requires i + |pat| <= |s| && k <= |pat|
    ensures MatchesFrom(s, pat, i, k) <==> s[i + k..i + |pat|] == pat[k..]
    decreases |pat| - k
  {
    if k < |pat| {
      MatchesFromIsSliceEquality(s, pat, i, k + 1);
      assert s[i + k..i + |pat|] == [s[i + k]] + s[i + k + 1..i + |pat|];
      assert pat[k..] == [pat[k]] + pat[k + 1..];
    }
  }

  /** `Find` returns the first occurrence at or after `start`, or -1 exactly
      when there is none. */
  lemma {:induction false} FindIsFirst(s: string, pat: string, start: nat)
    ensures var r := Find(s, pat, start);
      && (r == -1 || (start <= r && OccursAt(s, pat, r)))
      && (forall i :: start <= i && (r == -1 || i < r) ==> !OccursAt(s, pat, i))
    decreases |s| - start
  {
    if start + |pat| <= |s| {
      MatchesFromIsSliceEquality(s, pat, start, 0);
      if s[start..start + |pat|] != pat {
        FindIsFirst(s, pat, start + 1);
      }
    }
  }

  /** The first-occurrence property determines `Find` completely. */
  lemma FindIsFirstOccurrence(s: string, pat: string, start: nat, r: int)
    requires r == -1 || (start <= r && OccursAt(s, pat, r))
    requires forall i :: start <= i && (r == -1 || i < r) ==> !OccursAt(s, pat, i)
    ensures Find(s, pat, start) == r
  {
    FindIsFirst(s, pat, start);
  }

  /** Python's `s.startswith(prefix)`. */
  predicate StartsWith(s: string, prefix: string) {
    |prefix| <= |s| && s[..|prefix|] == prefix
  }

  /** Python's `s.endswith(suffix)`. */
  predicate EndsWith(s: string, suffix: string) {
    |suffix| <= |s| && s[|s| - |suffix|..] == suffix
  }

  /** Python's `a <= b` on byte strings: `a` is a prefix of `b`, or `a` has
      the smaller character at the first index where they differ. */
  predicate LexLe(a: string, b: string)
    decreases |a|
  {
    a == [] || (b != [] && (a[0] < b[0] || (a[0] == b[0] && LexLe(a[1..], b[1..]))))
  }

  lemma {:induction false} LexLeTotal(a: string, b: string)
    ensures LexLe(a, b) || LexLe(b, a)
    decreases |a|
  {
    if a != [] && b != [] && a[0] == b[0] {
      LexLeTotal(a[1..], b[1..]);
    }
  }

  lemma {:induction false} LexLeTransitive(a: string, b: string, c: string)
    requires LexLe(a, b) && LexLe(b, c)
    ensures LexLe(a, c)
    decreases |a|
  {
    if a != [] && a[0] == b[0] && b[0] == c[0] {
      LexLeTransitive(a[1..], b[1..], c[1..]);
    }
  }
}
