/** The per-file part of znc-snote's `scan`: every line the scanner yields
    is tried against the notice pattern, its captures are put into a map,
    the notice type is filtered, and an accepted line becomes a record that
    also carries the file's path, its directory and file name, and the raw
    line. Records are appended to the output where the program sends them
    on its channel. */
module SnoteScan {

  import opened SnotePattern
  import opened SnoteFilter

  /** The program switches `scan` reads. Only the filter decides what is
      emitted; `stripLeaders` and `includeFileName` only shape a value that
      is never used. */
  datatype Config = Config(filter: Filter, stripLeaders: bool, includeFileName: bool)

  // ---------------------------------------------------------------------
  // filepath.Split
  // ---------------------------------------------------------------------

  /** Length of the directory part: everything up to and including the last
      `/`, found by walking back from the end of the path. */
  function DirLength(path: string): (n: nat)
    ensures n <= |path|
    ensures n > 0 ==> path[n - 1] == '/'
    ensures forall k :: n <= k < |path| ==> path[k] != '/'
    decreases |path|
  {
    if |path| == 0 then 0
    else if path[|path| - 1] == '/' then |path|
    else DirLength(path[..|path| - 1])
  }

  /** `filepath.Split` with `/` as the separator: the directory keeps its
      trailing slash, and the file name is what follows the last slash. */
  function SplitPath(path: string): (r: (string, string))
    ensures r.0 + r.1 == path
    ensures '/' !in r.1
    ensures r.0 == [] || r.0[|r.0| - 1] == '/'
  {
    var n := DirLength(path);
    assert path[..n] + path[n..] == path;
    assert forall k :: 0 <= k < |path[n..]| ==> path[n..][k] != '/';
    (path[..n], path[n..])
  }

  /** There is only one way to cut a path into a directory ending in `/`
      (or empty) and a file name with no `/`; SplitPath finds it. */
  lemma SplitPathUnique(path: string, dir: string, file: string)
    requires dir + file == path
    requires '/' !in file
    requires dir == [] || dir[|dir| - 1] == '/'
    ensures SplitPath(path) == (dir, file)
  {
    var (d, f) := SplitPath(path);
    assert forall k :: |dir| <= k < |path| ==> path[k] == file[k - |dir|];
    if |dir| > 0 {
      assert path[|dir| - 1] == dir[|dir| - 1];
    }
    assert |d| == |dir|;
    assert d == path[..|d|] && dir == path[..|dir|];
    assert f == path[|d|..] && file == path[|dir|..];
  }

  // ---------------------------------------------------------------------
  // reMatchToMap
  // ---------------------------------------------------------------------

  /** `snoteRe.SubexpNames()`: the whole match has no name, then the four
      named groups in the order they open. */
  const SubexpNames: seq<string> := ["", "time", "server_name", "snote", "text"]

  /** The keys `reMatchToMap` produces. */
  const CaptureKeys: set<string> := {"time", "server_name", "snote", "text"}

  /** The map `reMatchToMap` builds for a match with the given captures. */
  function CaptureMap(f: Fields): (m: map<string, string>)
    ensures m.Keys == CaptureKeys
  {
    map["time" := f.time, "server_name" := f.serverName, "snote" := f.snote, "text" := f.text]
  }

  /** No two groups share a name. */
  lemma SubexpNamesDistinct()
    ensures forall j1, j2 :: 0 <= j1 < j2 < |SubexpNames| ==> SubexpNames[j1] != SubexpNames[j2]
  {
    var names := SubexpNames;
    assert names[1][1] != names[4][1];
    forall j1, j2 | 0 <= j1 < j2 < |names| && !(j1 == 1 && j2 == 4)
      ensures names[j1] != names[j2]
    {
      assert |names[j1]| != |names[j2]|;
    }
  }

  /** The loop of `reMatchToMap`: every group with a name, other than the
      whole match, is stored under its name. */
  method NamedGroups(sub: seq<string>) returns (res: map<string, string>)
    requires |sub| == |SubexpNames|
    ensures res.Keys == CaptureKeys
    ensures forall i :: 1 <= i < |SubexpNames| ==> res[SubexpNames[i]] == sub[i]
  {
    var names := SubexpNames;
    SubexpNamesDistinct();
    res := map[];
    for i := 0 to |names|
      invariant res.Keys == set j | 1 <= j < i :: names[j]
      invariant forall j :: 1 <= j < i ==> res[names[j]] == sub[j]
    {
      var name := names[i];
      if i != 0 && name != "" {
        res := res[name := sub[i]];
      }
    }
    assert names[1] in res && names[2] in res && names[3] in res && names[4] in res;
  }

  /** A map holding the named groups of a submatch slice whose groups are
      the captures f is the capture map of f. */
  lemma GroupsAreCaptures(sub: seq<string>, res: map<string, string>, f: Fields)
    requires |sub| == |SubexpNames| && res.Keys == CaptureKeys
    requires forall i :: 1 <= i < |SubexpNames| ==> res[SubexpNames[i]] == sub[i]
    requires sub[1] == f.time && sub[2] == f.serverName && sub[3] == f.snote && sub[4] == f.text
    ensures res == CaptureMap(f)
  {
    var names := SubexpNames;
    assert res[names[1]] == f.time && res[names[2]] == f.serverName;
    assert res[names[3]] == f.snote && res[names[4]] == f.text;
  }

  /** The submatch slice of a matching line holds the leftmost match's
      captures after the whole match. */
  lemma SubmatchOfFind(text: string)
    requires MatchString(text)
    ensures FindStringSubmatch(text).Some? && |FindStringSubmatch(text).value| == |SubexpNames|
    ensures var sub, f := FindStringSubmatch(text).value, Find(text).value.fields;
      sub[1] == f.time && sub[2] == f.serverName && sub[3] == f.snote && sub[4] == f.text
  {
  }

  /** `reMatchToMap(snoteRe, text)`. `scan` calls it only after MatchString
      succeeded, so the submatch slice is never nil here. */
  method ReMatchToMap(text: string) returns (res: map<string, string>)
    requires MatchString(text)
    ensures res.Keys == CaptureKeys
    ensures forall i :: 1 <= i < |SubexpNames| ==> res[SubexpNames[i]] == FindStringSubmatch(text).value[i]
    ensures res == CaptureMap(Find(text).value.fields)
  {
    SubmatchOfFind(text);
    var sub := FindStringSubmatch(text).value;
    res := NamedGroups(sub);
    GroupsAreCaptures(sub, res, Find(text).value.fields);
  }

  // ---------------------------------------------------------------------
  // Collecting per-line outcomes
  // ---------------------------------------------------------------------

  /** The values `g` yields for the elements of `xs`, in order, skipping the
      elements it yields nothing for. */
  function Collect<T, U>(xs: seq<T>, g: T -> Option<U>): seq<U>
    decreases |xs|
  {
    if |xs| == 0 then []
    else Collect(xs[..|xs| - 1], g) + (match g(xs[|xs| - 1]) case Some(u) => [u] case None => [])
  }

  /** The positions of the elements `g` yields something for, in order. */
  function Hits<T, U>(xs: seq<T>, g: T -> Option<U>): seq<nat>
    decreases |xs|
  {
    if |xs| == 0 then []
    else Hits(xs[..|xs| - 1], g) + (if g(xs[|xs| - 1]).Some? then [|xs| - 1] else [])
  }

  lemma {:induction false} CollectAppend<T, U>(a: seq<T>, b: seq<T>, g: T -> Option<U>)
    ensures Collect(a + b, g) == Collect(a, g) + Collect(b, g)
    decreases |b|
  {
    if |b| == 0 {
      assert a + b == a;
    } else {
      var b' := b[..|b| - 1];
      assert (a + b)[..|a + b| - 1] == a + b';
      CollectAppend(a, b', g);
    }
  }

  lemma CollectSkips<T, U>(a: seq<T>, x: T, b: seq<T>, g: T -> Option<U>)
    requires g(x).None?
    ensures Collect(a + [x] + b, g) == Collect(a + b, g)
  {
    CollectAppend(a + [x], b, g);
    CollectAppend(a, [x], g);
    CollectAppend(a, b, g);
    assert [x][..0] == [];
  }

  lemma {:induction false} CollectAtMostOne<T, U>(xs: seq<T>, g: T -> Option<U>)
    ensures |Collect(xs, g)| <= |xs|
    decreases |xs|
  {
    if |xs| > 0 {
      CollectAtMostOne(xs[..|xs| - 1], g);
    }
  }

  /** Hits lists exactly the positions `g` yields something for, each once,
      in increasing order. */
  lemma {:induction false} HitsExactly<T, U>(xs: seq<T>, g: T -> Option<U>)
    ensures forall k :: 0 <= k < |Hits(xs, g)| ==> Hits(xs, g)[k] < |xs| && g(xs[Hits(xs, g)[k]]).Some?
    ensures forall k1, k2 :: 0 <= k1 < k2 < |Hits(xs, g)| ==> Hits(xs, g)[k1] < Hits(xs, g)[k2]
    ensures forall j :: 0 <= j < |xs| && g(xs[j]).Some? ==> j in Hits(xs, g)
    decreases |xs|
  {
    if |xs| > 0 {
      var init := xs[..|xs| - 1];
      HitsExactly(init, g);
      var h0 := Hits(init, g);
      assert forall k :: 0 <= k < |h0| ==> h0[k] < |init| && xs[h0[k]] == init[h0[k]];
      assert forall j :: 0 <= j < |init| ==> xs[j] == init[j];
    }
  }

  /** The k-th collected value is what `g` yields for the k-th hit. */
  lemma {:induction false} CollectHits<T, U>(xs: seq<T>, g: T -> Option<U>)
    ensures |Collect(xs, g)| == |Hits(xs, g)|
    ensures forall k :: 0 <= k < |Hits(xs, g)| ==>
      && Hits(xs, g)[k] < |xs|
      && g(xs[Hits(xs, g)[k]]) == Some(Collect(xs, g)[k])
    decreases |xs|
  {
    HitsExactly(xs, g);
    if |xs| > 0 {
      var init := xs[..|xs| - 1];
      CollectHits(init, g);
      var h0 := Hits(init, g);
      assert forall k :: 0 <= k < |h0| ==> h0[k] < |init| && xs[h0[k]] == init[h0[k]];
    }
  }

  /** Every collected value comes from some element. */
  lemma CollectFrom<T, U>(xs: seq<T>, g: T -> Option<U>, u: U)
    requires u in Collect(xs, g)
    ensures exists j :: 0 <= j < |xs| && g(xs[j]) == Some(u)
  {
    CollectHits(xs, g);
    var k :| 0 <= k < |Collect(xs, g)| && Collect(xs, g)[k] == u;
    assert g(xs[Hits(xs, g)[k]]) == Some(u);
  }

  // ---------------------------------------------------------------------
  // What a file yields
  // ---------------------------------------------------------------------

  /** The keys of an emitted record. */
  const RecordKeys: set<string> := CaptureKeys + {"path", "dir", "filename", "line"}

  /** The record for a line with the given captures read from the file at
      `path`: the captures, the path, its split, and the line itself. */
  function RecordOf(path: string, line: string, f: Fields): (r: map<string, string>)
    ensures r.Keys == RecordKeys
    ensures r["time"] == f.time && r["server_name"] == f.serverName
    ensures r["snote"] == f.snote && r["text"] == f.text
    ensures r["path"] == path && r["line"] == line
    ensures r["dir"] + r["filename"] == path && '/' !in r["filename"]
    ensures r["dir"] == [] || r["dir"][|r["dir"]| - 1] == '/'
    ensures (r["dir"], r["filename"]) == SplitPath(path)
  {
    var (dir, file) := SplitPath(path);
    CaptureMap(f)["path" := path]["dir" := dir]["filename" := file]["line" := line]
  }

  /** A line is kept when the pattern matches it and the filter accepts the
      notice type it captured. */
  predicate Keep(f: Filter, line: string) {
    MatchString(line) && Accept(f, Find(line).value.fields.snote)
  }

  /** What one line of the file at `path` yields: its record if it is kept,
      nothing otherwise. */
  function Outcome(path: string, f: Filter, line: string): (r: Option<map<string, string>>)
    ensures r.Some? <==> Keep(f, line)
    ensures r.Some? ==> r.value == RecordOf(path, line, Find(line).value.fields)
  {
    if Keep(f, line) then Some(RecordOf(path, line, Find(line).value.fields)) else None
  }

  function Outcomes(path: string, f: Filter): string -> Option<map<string, string>> {
    line => Outcome(path, f, line)
  }

  /** The records a file with these lines yields, in order. */
  function Emitted(path: string, lines: seq<string>, f: Filter): seq<map<string, string>> {
    Collect(lines, Outcomes(path, f))
  }

  /** The positions of the lines that yield a record. */
  function Selected(path: string, lines: seq<string>, f: Filter): seq<nat> {
    Hits(lines, Outcomes(path, f))
  }

  /** The per-line loop of `scan` over the lines of one file. The value
      `toPrint` is computed as the program computes it and then dropped, as
      the program drops it. */
  method ScanFile(path: string, lines: seq<string>, cfg: Config) returns (out: seq<map<string, string>>)
    ensures out == Emitted(path, lines, cfg.filter)
  {
    out := [];
    var n := 0;
    while n < |lines|
      invariant n <= |lines|
      invariant out == Emitted(path, lines[..n], cfg.filter)
    {
      var text := lines[n];
      assert lines[..n + 1][..n] == lines[..n];
      n := n + 1;
      if !MatchString(text) {
        continue;
      }
      var res := ReMatchToMap(text);
      if Accept(cfg.filter, res["snote"]) {
        var toPrint := text;
        if cfg.stripLeaders {
          toPrint := res["text"];
        }
        if cfg.includeFileName {
          toPrint := path + ":" + toPrint;
        }
        res := res["path" := path];
        var (dir, file) := SplitPath(path);
        res := res["dir" := dir]["filename" := file];
        res := res["line" := text];
        out := out + [res];
      }
    }
    assert lines[..n] == lines;
  }

  // ---------------------------------------------------------------------
  // Properties of the output
  // ---------------------------------------------------------------------

  /** A line the pattern does not match yields nothing, and the lines after
      it are scanned as if it were not there. */
  lemma SkipsUnmatched(path: string, before: seq<string>, line: string, after: seq<string>, f: Filter)
    requires !MatchString(line)
    ensures Emitted(path, before + [line] + after, f) == Emitted(path, before + after, f)
  {
    CollectSkips(before, line, after, Outcomes(path, f));
  }

  /** A file yields at most one record per line. */
  lemma AtMostOnePerLine(path: string, lines: seq<string>, f: Filter)
    ensures |Emitted(path, lines, f)| <= |lines|
  {
    CollectAtMostOne(lines, Outcomes(path, f));
  }

  /** The output is the records of exactly the kept lines, in file order:
      the k-th record is built from the k-th kept line. */
  lemma EmittedInOrder(path: string, lines: seq<string>, f: Filter)
    ensures |Emitted(path, lines, f)| == |Selected(path, lines, f)|
    ensures forall k1, k2 :: 0 <= k1 < k2 < |Selected(path, lines, f)| ==>
      Selected(path, lines, f)[k1] < Selected(path, lines, f)[k2]
    ensures forall j :: 0 <= j < |lines| ==> (j in Selected(path, lines, f) <==> Keep(f, lines[j]))
    ensures forall k :: 0 <= k < |Selected(path, lines, f)| ==>
      && Selected(path, lines, f)[k] < |lines|
      && Keep(f, lines[Selected(path, lines, f)[k]])
      && Emitted(path, lines, f)[k] == RecordOf(path, lines[Selected(path, lines, f)[k]], Find(lines[Selected(path, lines, f)[k]]).value.fields)
  {
    var g := Outcomes(path, f);
    HitsExactly(lines, g);
    CollectHits(lines, g);
    var s := Selected(path, lines, f);
    forall j | 0 <= j < |lines| && j in s
      ensures Keep(f, lines[j])
    {
      var k :| 0 <= k < |s| && s[k] == j;
    }
  }

  /** What every emitted record holds: the eight keys, the file's path and
      its split, one of the file's lines that the pattern matches, that
      line's captures, and a notice type the filter accepts. */
  lemma RecordFacts(path: string, lines: seq<string>, f: Filter, r: map<string, string>)
    requires r in Emitted(path, lines, f)
    ensures r.Keys == RecordKeys
    ensures r["path"] == path
    ensures r["dir"] + r["filename"] == path && '/' !in r["filename"]
    ensures SplitPath(path) == (r["dir"], r["filename"])
    ensures r["line"] in lines && MatchString(r["line"])
    ensures var m := Find(r["line"]).value.fields;
      r["time"] == m.time && r["server_name"] == m.serverName && r["snote"] == m.snote && r["text"] == m.text
    ensures Accept(f, r["snote"])
    ensures ValidTime(r["time"]) && Token(r["server_name"]) && Token(r["snote"])
  {
    var g := Outcomes(path, f);
    CollectFrom(lines, g, r);
    var j :| 0 <= j < |lines| && g(lines[j]) == Some(r);
    var line := lines[j];
    assert Outcome(path, f, line) == Some(r);
    var m := Find(line).value;
    assert r == RecordOf(path, line, m.fields);
    FieldBounds(line, m);
    SplitPathUnique(path, r["dir"], r["filename"]);
  }

  /** A record's line, as a line scanner yields it (no newline), ends with
      the record's four captures glued together by the pattern's fixed
      pieces and four whitespace characters. */
  lemma RecordLineReassembles(path: string, lines: seq<string>, f: Filter, r: map<string, string>)
    requires r in Emitted(path, lines, f)
    requires forall l :: l in lines ==> '\n' !in l
    ensures r.Keys == RecordKeys
    ensures exists prefix: string, w0, w1, w2, w3 ::
      && IsSpace(w0) && IsSpace(w1) && IsSpace(w2) && IsSpace(w3)
      && r["line"] == prefix + Assemble(Fields(r["time"], r["server_name"], r["snote"], r["text"]), w0, w1, w2, w3)
  {
    RecordFacts(path, lines, f, r);
    var line := r["line"];
    var m := Find(line).value;
    Reassemble(line, m);
    assert m.fields == Fields(r["time"], r["server_name"], r["snote"], r["text"]);
    var w0, w1, w2, w3 :| && IsSpace(w0) && IsSpace(w1) && IsSpace(w2) && IsSpace(w3)
      && line == line[..m.start] + Assemble(m.fields, w0, w1, w2, w3);
    assert r["line"] == line[..m.start] + Assemble(Fields(r["time"], r["server_name"], r["snote"], r["text"]), w0, w1, w2, w3);
  }

  /** With the wildcard type, every line the pattern matches is kept. */
  lemma WildcardKeepsMatching(path: string, lines: seq<string>, ignoreRemote: bool)
    ensures forall j :: 0 <= j < |lines| ==>
      (j in Selected(path, lines, Filter(Wildcard, ignoreRemote)) <==> MatchString(lines[j]))
  {
    EmittedInOrder(path, lines, Filter(Wildcard, ignoreRemote));
  }

  /** Ignoring remote notices keeps a subset of the lines kept otherwise. */
  lemma IgnoreRemoteSubset(path: string, lines: seq<string>, t: string)
    ensures forall j :: j in Selected(path, lines, Filter(t, true)) ==> j in Selected(path, lines, Filter(t, false))
  {
    EmittedInOrder(path, lines, Filter(t, true));
    EmittedInOrder(path, lines, Filter(t, false));
    forall j | j in Selected(path, lines, Filter(t, true))
      ensures j in Selected(path, lines, Filter(t, false))
    {
      var k :| 0 <= k < |Selected(path, lines, Filter(t, true))| && Selected(path, lines, Filter(t, true))[k] == j;
      IgnoreRemoteNarrows(t, Find(lines[j]).value.fields.snote);
    }
  }
}
