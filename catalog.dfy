/** The file catalog: `Config.create_metric_file_mapping`, which names each
    metric file by the text that `^(\w+)_` captures on its base name. */
module Catalog {
  import opened Wrappers

  /** `os.sep` on POSIX systems. */
  const Sep: char := '/'

  /** `\w`, restricted to ASCII: letters, digits and the underscore. */
  predicate IsWordChar(c: char) {
    ('a' <= c <= 'z') || ('A' <= c <= 'Z') || ('0' <= c <= '9') || c == '_'
  }

  /** The index of the last separator before index `j`, or -1 when there is none. */
  function LastSep(path: string, j: nat): (r: int)
    requires j <= |path|
    ensures -1 <= r < j
  {
    if j == 0 then -1 else if path[j - 1] == Sep then j - 1 else LastSep(path, j - 1)
  }

  lemma {:induction false} LastSepIsLast(path: string, j: nat)
    requires j <= |path|
    ensures LastSep(path, j) >= 0 ==> path[LastSep(path, j)] == Sep
    ensures forall i :: LastSep(path, j) < i < j ==> path[i] != Sep
  {
    if j > 0 && path[j - 1] != Sep {
      LastSepIsLast(path, j - 1);
    }
  }

  /** `path.split(os.sep)[-1]`: the separator-free tail of the path that
      starts at the beginning of the path or right after a separator. */
  function Basename(path: string): (b: string)
    ensures |b| <= |path| && b == path[|path| - |b|..]
    ensures Sep !in b
    ensures |b| == |path| || path[|path| - |b| - 1] == Sep
  {
    LastSepIsLast(path, |path|);
    path[LastSep(path, |path|) + 1..]
  }

  /** Scans the run of word characters from index `i`, where `last` is the
      last underscore seen at an index of at least 1 (0 when none), and
      returns the last such underscore of the whole run. */
  function ScanRun(s: string, i: nat, last: nat): (r: nat)
    requires i <= |s|
    ensures r == last || i <= r < |s|
    decreases |s| - i
  {
    if i < |s| && IsWordChar(s[i]) then ScanRun(s, i + 1, if i >= 1 && s[i] == '_' then i else last)
    else last
  }

  /** `^(\w+)_` matches `b` with group 1 of length `j`. */
  predicate Captures(b: string, j: int) {
    1 <= j < |b| && b[j] == '_' && forall i :: 0 <= i < j ==> IsWordChar(b[i])
  }

  /** The group `re.search(r"^(\w+)_", b).group(1)`, or `None` when there is
      no match. The greedy `\w+` backtracks from the end of the leading
      word run, so the match that wins is the longest capture, and there is
      no name exactly when the pattern does not match. */
  function MetricName(b: string): (r: Option<string>)
    ensures r.Some? ==> Captures(b, |r.value|) && r.value == b[..|r.value|]
    ensures r.Some? ==> forall j :: Captures(b, j) ==> j <= |r.value|
    ensures r.None? <==> forall j :: !Captures(b, j)
  {
    ScanRunFindsLongest(b, 0, 0);
    assert !Captures(b, 0);
    var j := ScanRun(b, 0, 0);
    if j == 0 then None else Some(b[..j])
  }

  lemma {:induction false} ScanRunFindsLongest(s: string, i: nat, last: nat)
    requires i <= |s|
    requires forall k :: 0 <= k < i ==> IsWordChar(s[k])
    requires last == 0 || Captures(s, last)
    requires forall j :: Captures(s, j) && j < i ==> j <= last
    ensures ScanRun(s, i, last) == 0 || Captures(s, ScanRun(s, i, last))
    ensures forall j :: Captures(s, j) ==> j <= ScanRun(s, i, last)
    decreases |s| - i
  {
    if i < |s| && IsWordChar(s[i]) {
      var last' := if i >= 1 && s[i] == '_' then i else last;
      assert last' == 0 || Captures(s, last');
      ScanRunFindsLongest(s, i + 1, last');
    } else {
      forall j | Captures(s, j) ensures j < i {
        if j >= i {
          assert IsWordChar(s[i]);
        }
      }
    }
  }

  /** The metric name of a full path. */
  function NameOf(path: string): Option<string> {
    MetricName(Basename(path))
  }

  datatype CatalogError = NoMetricName(path: string)

  /** Among the first `n` files, `i` is the last one named `k`. */
  ghost predicate LastNamed(files: seq<string>, n: int, k: string, i: int)
    requires n <= |files|
  {
    0 <= i < n && NameOf(files[i]) == Some(k)
    && forall j :: i < j < n ==> NameOf(files[j]) != Some(k)
  }

  /** `i` is the first file without a metric name. */
  predicate FirstUnnamed(files: seq<string>, i: int) {
    0 <= i < |files| && NameOf(files[i]).None? && forall j :: 0 <= j < i ==> NameOf(files[j]).Some?
  }

  /** The metric name of every file, in order. */
  ghost function NamesOf(files: seq<string>): (names: seq<Option<string>>)
    ensures |names| == |files| && forall j :: 0 <= j < |files| ==> names[j] == NameOf(files[j])
  {
    seq(|files|, j requires 0 <= j < |files| => NameOf(files[j]))
  }

  /** Among the first `n` names, `i` is the last one equal to `k`. */
  ghost predicate LastIn(names: seq<Option<string>>, n: int, k: string, i: int)
    requires n <= |names|
  {
    0 <= i < n && names[i] == Some(k)
    && forall j :: i < j < n ==> names[j] != Some(k)
  }

  /** What the loop of `CreateMetricFileMapping` knows after `n` files, whose
      names are `names`: each of them has a name, every name is a key, and
      each key maps to the last of those files that has that name (`from`
      holds its index). */
  ghost predicate Filled(files: seq<string>, names: seq<Option<string>>, n: int,
                         mapping: map<string, string>, from: map<string, int>)
    requires 0 <= n <= |files| == |names|
  {
    (forall j :: 0 <= j < n ==> names[j].Some? && names[j].value in mapping)
    && (forall k :: k in mapping ==> k in from && LastIn(names, n, k, from[k]) && mapping[k] == files[from[k]])
    && |mapping| <= n
  }

  /** Once every file has been seen, the mapping is the method's result. */
  lemma FilledComplete(files: seq<string>, mapping: map<string, string>, from: map<string, int>)
    requires Filled(files, NamesOf(files), |files|, mapping, from)
    ensures forall i :: 0 <= i < |files| ==> NameOf(files[i]).value in mapping
    ensures forall k :: k in mapping ==> exists i :: LastNamed(files, |files|, k, i) && mapping[k] == files[i]
    ensures |mapping| <= |files|
  {
    var names := NamesOf(files);
    forall k | k in mapping
      ensures LastNamed(files, |files|, k, from[k]) && mapping[k] == files[from[k]]
    {
      assert LastIn(names, |files|, k, from[k]);
    }
  }

  lemma FilledStep(files: seq<string>, names: seq<Option<string>>, n: int,
                   mapping: map<string, string>, from: map<string, int>)
    requires 0 <= n < |files| == |names| && Filled(files, names, n, mapping, from) && names[n].Some?
    ensures Filled(files, names, n + 1, mapping[names[n].value := files[n]], from[names[n].value := n])
  {
    var name := names[n].value;
    var m := mapping[name := files[n]];
    assert mapping.Keys <= m.Keys;
    forall k | k in m
      ensures k in from[name := n] && LastIn(names, n + 1, k, from[name := n][k])
    {
      if k != name {
        assert LastIn(names, n, k, from[k]);
      }
    }
  }

  /** `Config.create_metric_file_mapping`. A file whose base name does not
      match raises in the source; the model reports the first such file. */
  method CreateMetricFileMapping(files: seq<string>) returns (r: Result<map<string, string>, CatalogError>)
    ensures r.Failure? <==> exists i :: 0 <= i < |files| && NameOf(files[i]).None?
    ensures r.Failure? ==> exists i :: FirstUnnamed(files, i) && r.error == NoMetricName(files[i])
    ensures r.Success? ==> forall i :: 0 <= i < |files| ==> NameOf(files[i]).value in r.value
    ensures r.Success? ==> forall k :: k in r.value ==>
      exists i :: LastNamed(files, |files|, k, i) && r.value[k] == files[i]
    ensures r.Success? ==> |r.value| <= |files|
  {
    var mapping: map<string, string> := map[];
    ghost var from: map<string, int> := map[];
    ghost var names := NamesOf(files);
    var i := 0;
    while i < |files|
      invariant 0 <= i <= |files|
      invariant Filled(files, names, i, mapping, from)
    {
      var name := NameOf(files[i]);
      if name.None? {
        assert FirstUnnamed(files, i);
        return Failure(NoMetricName(files[i]));
      }
      FilledStep(files, names, i, mapping, from);
      mapping := mapping[name.value := files[i]];
      from := from[name.value := i];
      i := i + 1;
    }
    FilledComplete(files, mapping, from);
    r := Success(mapping);
  }

  /** The name runs to the last underscore of the leading word run, not to the first. */
  lemma CaptureRunsToLastUnderscore()
    ensures MetricName("steps_daily_x.parquet") == Some("steps_daily")
  {
    var b := "steps_daily_x.parquet";
    assert !IsWordChar(b[13]);
    assert ScanRun(b, 13, 11) == 11;
    assert ScanRun(b, 12, 11) == 11;
    assert ScanRun(b, 11, 5) == 11;
    assert ScanRun(b, 10, 5) == 11;
    assert ScanRun(b, 9, 5) == 11;
    assert ScanRun(b, 8, 5) == 11;
    assert ScanRun(b, 7, 5) == 11;
    assert ScanRun(b, 6, 5) == 11;
    assert ScanRun(b, 5, 0) == 11;
    assert ScanRun(b, 4, 0) == 11;
    assert ScanRun(b, 3, 0) == 11;
    assert ScanRun(b, 2, 0) == 11;
    assert ScanRun(b, 1, 0) == 11;
    assert ScanRun(b, 0, 0) == 11;
    assert b[..11] == "steps_daily";
  }

  /** A base name without an underscore after a word character has no name. */
  lemma NoUnderscoreNoName()
    ensures MetricName("steps.parquet") == None
  {
    var b := "steps.parquet";
    assert !IsWordChar(b[5]);
  }
}
