/** The fixed server-notice pattern of znc-snote (`snoteRe`). Read left to
    right it asks for `[`, a timestamp of three two-digit groups each with an
    optional colon (captured as `time`), `]`, one `\s`, `-`, a `\S+` run
    (`server_name`), `-`, `\s`, `***`, `\s`, an optional `REMOTE` and a `\S+`
    run (`snote`), `:`, `\s`, and `.*` (`text`).

    Go's regexp package runs it unanchored, the leftmost start winning; `\d`
    is `[0-9]`, `\s` is `[\t\n\f\r ]`, `\S` its complement and `.` anything
    but a newline. The matcher here (CutsAt, Find) is written by hand for this
    one pattern; ShapeAt is the pattern read declaratively, position by
    position, and the lemmas show that the two agree. */
module SnotePattern {

  datatype Option<T> = None | Some(value: T)

  /** The four named captures of the pattern. */
  datatype Fields = Fields(time: string, serverName: string, snote: string, text: string)

  /** A match: the span [start, end) of the line it covers and its captures. */
  datatype Match = Match(start: nat, end: nat, fields: Fields)

  /** `\s` in Go's regexp syntax (ASCII only; vertical tab is not included). */
  predicate IsSpace(c: char) {
    c == '\t' || c == '\n' || c == '\U{000C}' || c == '\r' || c == ' '
  }

  /** `\d` in Go's regexp syntax. */
  predicate IsDigit(c: char) {
    '0' <= c <= '9'
  }

  // ---------------------------------------------------------------------
  // The pattern, read declaratively
  // ---------------------------------------------------------------------

  /** A string `\S+` can match. `(?:REMOTE)?\S+` matches exactly these too. */
  predicate Token(t: string) {
    |t| > 0 && forall k :: 0 <= k < |t| ==> !IsSpace(t[k])
  }

  /** `(?:\d{2}:?){n}`: n groups of two digits, each optionally followed by a colon. */
  predicate TimeGroups(t: string, n: nat)
    decreases n
  {
    if n == 0 then t == []
    else
      && |t| >= 2 && IsDigit(t[0]) && IsDigit(t[1])
      && (TimeGroups(t[2..], n - 1) || (|t| >= 3 && t[2] == ':' && TimeGroups(t[3..], n - 1)))
  }

  /** A string the `time` group can capture. */
  predicate ValidTime(t: string) {
    TimeGroups(t, 3)
  }

  /** TimeGroups, read in place: s[p..q] is n groups. */
  predicate TimeGroupsAt(s: string, p: nat, q: nat, n: nat)
    decreases n
  {
    if n == 0 then p == q
    else
      && p + 2 <= q <= |s| && IsDigit(s[p]) && IsDigit(s[p + 1])
      && (TimeGroupsAt(s, p + 2, q, n - 1) || (p + 3 <= q && s[p + 2] == ':' && TimeGroupsAt(s, p + 3, q, n - 1)))
  }

  /** Where the pieces of a match lie in the line: `close` is the index of
      `]`, `sep1` that of the `\s` after the server name's closing `-`,
      `sep3` that of the `\s` after the notice type's closing `:`, and `end`
      the index just past the text. */
  datatype Cuts = Cuts(close: nat, sep1: nat, sep3: nat, end: nat)

  /** `\[(?P<time>...)\]\s-` from index i, `]` being at close. */
  predicate TimePart(s: string, i: nat, close: nat) {
    && i + 1 <= close && close + 2 < |s|
    && s[i] == '['
    && TimeGroupsAt(s, i + 1, close, 3)
    && s[close] == ']' && IsSpace(s[close + 1]) && s[close + 2] == '-'
  }

  /** `(?P<server_name>\S+)-\s\*{3}\s` after the `-` at close + 2. A `\S+`
      run can only be followed by `-` and whitespace if the `-` ends it, so
      the run is the server name and its closing `-`. */
  predicate ServerPart(s: string, close: nat, sep1: nat) {
    && close + 5 <= sep1 && sep1 + 4 < |s|
    && (forall k :: close + 3 <= k < sep1 - 1 ==> !IsSpace(s[k]))
    && s[sep1 - 1] == '-' && IsSpace(s[sep1])
    && s[sep1 + 1] == '*' && s[sep1 + 2] == '*' && s[sep1 + 3] == '*' && IsSpace(s[sep1 + 4])
  }

  /** `(?P<snote>(?:REMOTE)?\S+):\s` after the `\s` at sep1 + 4. */
  predicate SnotePart(s: string, sep1: nat, sep3: nat) {
    && sep1 + 7 <= sep3 < |s|
    && (forall k :: sep1 + 5 <= k < sep3 - 1 ==> !IsSpace(s[k]))
    && s[sep3 - 1] == ':' && IsSpace(s[sep3])
  }

  /** `(?P<text>.*)` after the `\s` at sep3: `.*` is greedy, so it runs to the
      first newline or the end of the line. */
  predicate TextPart(s: string, sep3: nat, end: nat) {
    && sep3 + 1 <= end <= |s|
    && (forall k :: sep3 + 1 <= k < end ==> s[k] != '\n')
    && (end == |s| || s[end] == '\n')
  }

  /** The pattern matches s from index i with its pieces at c. */
  predicate ShapeAt(s: string, i: nat, c: Cuts) {
    && TimePart(s, i, c.close)
    && ServerPart(s, c.close, c.sep1)
    && SnotePart(s, c.sep1, c.sep3)
    && TextPart(s, c.sep3, c.end)
  }

  /** The cut points are in order and inside s. */
  predicate Fits(s: string, i: nat, c: Cuts) {
    i + 1 <= c.close && c.close + 5 <= c.sep1 && c.sep1 + 7 <= c.sep3 && c.sep3 + 1 <= c.end <= |s|
  }

  /** What the four groups capture when the pieces lie at c. */
  function FieldsAt(s: string, i: nat, c: Cuts): Fields
    requires Fits(s, i, c)
  {
    Fields(s[i + 1..c.close], s[c.close + 3..c.sep1 - 1], s[c.sep1 + 5..c.sep3 - 1], s[c.sep3 + 1..c.end])
  }

  /** The pattern matches s[i..j] with captures f. */
  ghost predicate Shape(s: string, i: nat, j: nat, f: Fields) {
    exists c :: ShapeAt(s, i, c) && c.end == j && FieldsAt(s, i, c) == f
  }

  /** Some match of the pattern starts at index i of s. */
  ghost predicate MatchesAt(s: string, i: nat) {
    exists c :: ShapeAt(s, i, c)
  }

  /** `(?P<snote>...):\s(?P<text>.*)` as text, with `w` the `\s`. */
  function SnoteTail(snote: string, w: char, text: string): string {
    snote + (":" + ([w] + text))
  }

  /** `(?P<server_name>\S+)-\s\*{3}\s` followed by the notice part, with
      `w1`, `w2` the two `\s` and `w3` the one of the notice part. */
  function ServerTail(server: string, w1: char, w2: char, snote: string, w3: char, text: string): string {
    server + ("-" + ([w1] + ("***" + ([w2] + SnoteTail(snote, w3, text)))))
  }

  /** The text a match spans, piece by piece; `w0` to `w3` are the
      characters matched by the four `\s`. */
  function Assemble(f: Fields, w0: char, w1: char, w2: char, w3: char): string {
    "[" + (f.time + ("]" + ([w0] + ("-" + ServerTail(f.serverName, w1, w2, f.snote, w3, f.text)))))
  }

  // ---------------------------------------------------------------------
  // The matcher
  // ---------------------------------------------------------------------

  /** The first index from p on that holds whitespace (or |s|): how far
      `\S+` reaches from p. */
  function NonSpaceEnd(s: string, p: nat): (e: nat)
    requires p <= |s|
    ensures p <= e <= |s|
    ensures forall k :: p <= k < e ==> !IsSpace(s[k])
    ensures e == |s| || IsSpace(s[e])
    decreases |s| - p
  {
    if p == |s| || IsSpace(s[p]) then p else NonSpaceEnd(s, p + 1)
  }

  /** The first index from p on that holds a newline (or |s|): how far `.*`
      reaches from p. */
  function LineEnd(s: string, p: nat): (e: nat)
    requires p <= |s|
    ensures p <= e <= |s|
    ensures forall k :: p <= k < e ==> s[k] != '\n'
    ensures e == |s| || s[e] == '\n'
    decreases |s| - p
  {
    if p == |s| || s[p] == '\n' then p else LineEnd(s, p + 1)
  }

  /** `(?:\d{2}:?){n}` from index p, taking each optional colon when it is
      there; the index where it stops. */
  function TimeEnd(s: string, p: nat, n: nat): (r: Option<nat>)
    requires p <= |s|
    ensures r.Some? ==> p <= r.value <= |s| && TimeGroupsAt(s, p, r.value, n)
    decreases n
  {
    if n == 0 then Some(p)
    else if p + 2 > |s| || !IsDigit(s[p]) || !IsDigit(s[p + 1]) then None
    else TimeEnd(s, if p + 2 < |s| && s[p + 2] == ':' then p + 3 else p + 2, n - 1)
  }

  /** The pattern anchored at index i of s: where its pieces lie, if it
      matches there. */
  function CutsAt(s: string, i: nat): (r: Option<Cuts>)
    requires i <= |s|
    ensures r.Some? ==> ShapeAt(s, i, r.value)
  {
    if i == |s| || s[i] != '[' then None
    else
      match TimeEnd(s, i + 1, 3)
      case None => None
      case Some(close) =>
        if close + 2 < |s| && s[close] == ']' && IsSpace(s[close + 1]) && s[close + 2] == '-'
        then AfterTime(s, close)
        else None
  }

  /** The rest of the pattern once `\]\s-` has been read, `]` being at close. */
  function AfterTime(s: string, close: nat): (r: Option<Cuts>)
    requires close + 2 < |s|
    ensures r.Some? ==>
      && r.value.close == close
      && ServerPart(s, close, r.value.sep1)
      && SnotePart(s, r.value.sep1, r.value.sep3)
      && TextPart(s, r.value.sep3, r.value.end)
  {
    var sep1 := NonSpaceEnd(s, close + 3);
    if sep1 >= close + 5 && sep1 + 4 < |s| && s[sep1 - 1] == '-'
       && s[sep1 + 1] == '*' && s[sep1 + 2] == '*' && s[sep1 + 3] == '*' && IsSpace(s[sep1 + 4])
    then AfterServer(s, close, sep1)
    else None
  }

  /** The notice type and the text, once the server part has been read. */
  function AfterServer(s: string, close: nat, sep1: nat): (r: Option<Cuts>)
    requires sep1 + 4 < |s|
    ensures r.Some? ==>
      && r.value.close == close && r.value.sep1 == sep1
      && SnotePart(s, sep1, r.value.sep3)
      && TextPart(s, r.value.sep3, r.value.end)
  {
    var sep3 := NonSpaceEnd(s, sep1 + 5);
    if sep3 >= sep1 + 7 && sep3 < |s| && s[sep3 - 1] == ':'
    then Some(Cuts(close, sep1, sep3, LineEnd(s, sep3 + 1)))
    else None
  }

  /** Leftmost search from index i, as `FindStringSubmatch` does it. */
  function FindFrom(s: string, i: nat): (r: Option<Match>)
    requires i <= |s|
    ensures r.Some? ==>
      && i <= r.value.start < |s|
      && CutsAt(s, r.value.start).Some?
      && var c := CutsAt(s, r.value.start).value;
         r.value == Match(r.value.start, c.end, FieldsAt(s, r.value.start, c))
    ensures forall k :: i <= k < (if r.Some? then r.value.start else |s|) ==> CutsAt(s, k).None?
    decreases |s| - i
  {
    if i == |s| then None
    else
      match CutsAt(s, i)
      case Some(c) => Some(Match(i, c.end, FieldsAt(s, i, c)))
      case None => FindFrom(s, i + 1)
  }

  function Find(s: string): Option<Match> {
    FindFrom(s, 0)
  }

  /** `snoteRe.MatchString`. */
  predicate MatchString(s: string) {
    Find(s).Some?
  }

  /** `snoteRe.FindStringSubmatch`: None (Go's nil) when the pattern matches
      nowhere in s; otherwise the leftmost match's span, then the captures of
      the four groups in the order they open. */
  function FindStringSubmatch(s: string): (r: Option<seq<string>>)
    ensures r.None? <==> forall i :: 0 <= i <= |s| ==> !MatchesAt(s, i)
    ensures r.Some? ==>
      && |r.value| == 5
      && exists i: nat, j: nat ::
        && i <= j <= |s|
        && Shape(s, i, j, Fields(r.value[1], r.value[2], r.value[3], r.value[4]))
        && r.value[0] == s[i..j]
        && forall k :: 0 <= k < i ==> !MatchesAt(s, k)
  {
    FindSpec(s);
    match Find(s)
    case None => None
    case Some(m) =>
      Some([s[m.start..m.end], m.fields.time, m.fields.serverName, m.fields.snote, m.fields.text])
  }

  // ---------------------------------------------------------------------
  // The matcher agrees with the pattern
  // ---------------------------------------------------------------------

  /** A `\S+` run followed by whitespace can only stop at that whitespace. */
  lemma NonSpaceEndExact(s: string, p: nat, q: nat)
    requires p <= q < |s| && IsSpace(s[q])
    requires forall k :: p <= k < q ==> !IsSpace(s[k])
    ensures NonSpaceEnd(s, p) == q
  {
  }

  /** `.*` stops exactly at the first newline or the end. */
  lemma LineEndExact(s: string, p: nat, q: nat)
    requires p <= q <= |s|
    requires forall k :: p <= k < q ==> s[k] != '\n'
    requires q == |s| || s[q] == '\n'
    ensures LineEnd(s, p) == q
  {
  }

  /** The colons are forced: a timestamp followed by something that is
      neither digit nor colon can be read in one way only. */
  lemma {:induction false} TimeEndComplete(s: string, p: nat, q: nat, n: nat)
    requires p <= q < |s| && TimeGroupsAt(s, p, q, n)
    requires !IsDigit(s[q]) && s[q] != ':'
    ensures TimeEnd(s, p, n) == Some(q)
    decreases n
  {
    if n > 0 {
      if p + 2 < |s| && s[p + 2] == ':' {
        TimeEndComplete(s, p + 3, q, n - 1);
      } else {
        TimeEndComplete(s, p + 2, q, n - 1);
      }
    }
  }

  lemma AfterServerComplete(s: string, c: Cuts)
    requires c.sep1 + 4 < |s| && SnotePart(s, c.sep1, c.sep3) && TextPart(s, c.sep3, c.end)
    ensures AfterServer(s, c.close, c.sep1) == Some(c)
  {
    NonSpaceEndExact(s, c.sep1 + 5, c.sep3);
    LineEndExact(s, c.sep3 + 1, c.end);
  }

  lemma AfterTimeComplete(s: string, c: Cuts)
    requires c.close + 2 < |s| && ServerPart(s, c.close, c.sep1)
    requires SnotePart(s, c.sep1, c.sep3) && TextPart(s, c.sep3, c.end)
    ensures AfterTime(s, c.close) == Some(c)
  {
    NonSpaceEndExact(s, c.close + 3, c.sep1);
    AfterServerComplete(s, c);
  }

  /** Completeness: wherever the pattern's pieces lie, the matcher finds them. */
  lemma CutsAtComplete(s: string, i: nat, c: Cuts)
    requires ShapeAt(s, i, c)
    ensures i <= |s| && CutsAt(s, i) == Some(c)
  {
    TimeEndComplete(s, i + 1, c.close, 3);
    AfterTimeComplete(s, c);
  }

  /** The matcher is exactly the pattern, and where the pattern matches its
      pieces can lie in one way only. */
  lemma CutsAtCorrect(s: string, i: nat, c: Cuts)
    requires i <= |s|
    ensures CutsAt(s, i) == Some(c) <==> ShapeAt(s, i, c)
  {
    if ShapeAt(s, i, c) {
      CutsAtComplete(s, i, c);
    }
  }

  /** MatchesAt, as the matcher decides it. */
  lemma MatchesAtIff(s: string, i: nat)
    requires i <= |s|
    ensures MatchesAt(s, i) <==> CutsAt(s, i).Some?
  {
    if MatchesAt(s, i) {
      var c :| ShapeAt(s, i, c);
      CutsAtComplete(s, i, c);
    }
  }

  /** Once the start is fixed, the end and the captures are unique. */
  lemma ShapeUnique(s: string, i: nat, j1: nat, f1: Fields, j2: nat, f2: Fields)
    requires Shape(s, i, j1, f1) && Shape(s, i, j2, f2)
    ensures j1 == j2 && f1 == f2
  {
    var c1 :| ShapeAt(s, i, c1) && c1.end == j1 && FieldsAt(s, i, c1) == f1;
    var c2 :| ShapeAt(s, i, c2) && c2.end == j2 && FieldsAt(s, i, c2) == f2;
    CutsAtComplete(s, i, c1);
    CutsAtComplete(s, i, c2);
  }

  // ---------------------------------------------------------------------
  // The leftmost match
  // ---------------------------------------------------------------------

  lemma FindFromCorrect(s: string, i: nat)
    requires i <= |s|
    ensures FindFrom(s, i).Some? ==>
      var m := FindFrom(s, i).value;
      && i <= m.start < m.end <= |s|
      && Shape(s, m.start, m.end, m.fields)
      && forall k :: i <= k < m.start ==> !MatchesAt(s, k)
    ensures FindFrom(s, i).None? ==> forall k :: i <= k <= |s| ==> !MatchesAt(s, k)
  {
    var r := FindFrom(s, i);
    var stop := if r.Some? then r.value.start else |s|;
    forall k | i <= k < stop
      ensures !MatchesAt(s, k)
    {
      MatchesAtIff(s, k);
    }
    if r.Some? {
      var c := CutsAt(s, stop).value;
      assert ShapeAt(s, stop, c);
    }
  }

  /** A match found is a reading of the pattern, inside the line. */
  lemma FindSound(s: string, m: Match)
    requires Find(s) == Some(m)
    ensures m.start < m.end <= |s|
    ensures Shape(s, m.start, m.end, m.fields)
  {
    FindFromCorrect(s, 0);
  }

  /** `FindStringSubmatch` returns m iff the pattern matches s[m.start..m.end]
      with captures m.fields and at no earlier index. */
  lemma FindLeftmost(s: string, m: Match)
    ensures Find(s) == Some(m) <==>
      && Shape(s, m.start, m.end, m.fields)
      && forall k :: 0 <= k < m.start ==> !MatchesAt(s, k)
  {
    FindFromCorrect(s, 0);
    if Find(s) == Some(m) {
      assert Shape(s, m.start, m.end, m.fields);
    } else if Shape(s, m.start, m.end, m.fields) && forall k :: 0 <= k < m.start ==> !MatchesAt(s, k) {
      var c :| ShapeAt(s, m.start, c) && c.end == m.end && FieldsAt(s, m.start, c) == m.fields;
      assert MatchesAt(s, m.start);
      var r := Find(s).value;
      assert MatchesAt(s, r.start);
      assert r.start == m.start;
      ShapeUnique(s, m.start, m.end, m.fields, r.end, r.fields);
    }
  }

  /** `MatchString` holds iff the pattern matches at some index of the line. */
  lemma MatchStringIff(s: string)
    ensures MatchString(s) <==> exists i :: 0 <= i <= |s| && MatchesAt(s, i)
  {
    FindFromCorrect(s, 0);
    if MatchString(s) {
      var m := Find(s).value;
      var c :| ShapeAt(s, m.start, c) && c.end == m.end && FieldsAt(s, m.start, c) == m.fields;
      assert MatchesAt(s, m.start);
    }
  }

  /** What `Find` returns, read against the pattern: nothing exactly when
      the pattern fits nowhere, and otherwise a leftmost fit. */
  lemma FindSpec(s: string)
    ensures Find(s).None? <==> forall i :: 0 <= i <= |s| ==> !MatchesAt(s, i)
    ensures Find(s).Some? ==>
      var m := Find(s).value;
      && m.start <= m.end <= |s|
      && Shape(s, m.start, m.end, m.fields)
      && forall k :: 0 <= k < m.start ==> !MatchesAt(s, k)
  {
    MatchStringIff(s);
    if Find(s).Some? {
      FindSound(s, Find(s).value);
      FindLeftmost(s, Find(s).value);
    }
  }

  // ---------------------------------------------------------------------
  // The captures
  // ---------------------------------------------------------------------

  predicate IsColon(c: char) {
    c == ':'
  }

  /** How many characters of s satisfy p. */
  function Count(s: string, p: char -> bool): nat {
    if s == [] then 0 else (if p(s[0]) then 1 else 0) + Count(s[1..], p)
  }

  lemma {:induction false} CountSplit(s: string, k: nat, p: char -> bool)
    requires k <= |s|
    ensures Count(s, p) == Count(s[..k], p) + Count(s[k..], p)
  {
    if k > 0 {
      CountSplit(s[1..], k - 1, p);
      assert s[1..][..k - 1] == s[..k][1..];
      assert s[1..][k - 1..] == s[k..];
    }
  }

  /** A timestamp read as n groups has exactly 2n digits, at most n colons
      and nothing else. */
  lemma {:induction false} TimeGroupsCounts(t: string, n: nat)
    requires TimeGroups(t, n)
    ensures Count(t, IsDigit) == 2 * n
    ensures Count(t, IsColon) <= n
    ensures |t| == Count(t, IsDigit) + Count(t, IsColon)
    decreases n
  {
    if n > 0 {
      var g := if TimeGroups(t[2..], n - 1) then 2 else 3;
      TimeGroupsCounts(t[g..], n - 1);
      CountSplit(t, g, IsDigit);
      CountSplit(t, g, IsColon);
      var h := t[..g];
      assert h[1..][1..] == h[2..];
      if g == 3 {
        assert h[2..][1..] == [];
        assert Count(h[2..], IsDigit) == 0;
        assert Count(h[2..], IsColon) == 1;
      } else {
        assert h[2..] == [];
      }
      assert Count(h, IsDigit) == 2 + Count(h[2..], IsDigit);
      assert Count(h, IsColon) == Count(h[2..], IsColon);
    }
  }

  /** Groups read in place are groups of the slice. */
  lemma {:induction false} TimeGroupsAtSlice(s: string, p: nat, q: nat, n: nat)
    requires p <= q <= |s| && TimeGroupsAt(s, p, q, n)
    ensures TimeGroups(s[p..q], n)
    decreases n
  {
    if n > 0 {
      var t := s[p..q];
      if TimeGroupsAt(s, p + 2, q, n - 1) {
        TimeGroupsAtSlice(s, p + 2, q, n - 1);
        assert t[2..] == s[p + 2..q];
      } else {
        TimeGroupsAtSlice(s, p + 3, q, n - 1);
        assert t[3..] == s[p + 3..q];
      }
    }
  }

  /** Where the pieces lie at c, the captures are what the groups allow. */
  lemma ShapeFields(s: string, i: nat, c: Cuts)
    requires ShapeAt(s, i, c)
    ensures ValidTime(FieldsAt(s, i, c).time)
    ensures Token(FieldsAt(s, i, c).serverName) && Token(FieldsAt(s, i, c).snote)
    ensures '\n' !in FieldsAt(s, i, c).text
  {
    var f := FieldsAt(s, i, c);
    TimeGroupsAtSlice(s, i + 1, c.close, 3);
    forall k | 0 <= k < |f.serverName|
      ensures !IsSpace(f.serverName[k])
    {
      assert f.serverName[k] == s[c.close + 3 + k];
    }
    forall k | 0 <= k < |f.snote|
      ensures !IsSpace(f.snote[k])
    {
      assert f.snote[k] == s[c.sep1 + 5 + k];
    }
    forall k | 0 <= k < |f.text|
      ensures f.text[k] != '\n'
    {
      assert f.text[k] == s[c.sep3 + 1 + k];
    }
  }

  /** What a match captures: a valid timestamp (six digits and at most
      three colons), a server name and a notice type with no whitespace,
      and a text with no newline. */
  lemma FieldBounds(s: string, m: Match)
    requires Find(s) == Some(m)
    ensures ValidTime(m.fields.time)
    ensures Count(m.fields.time, IsDigit) == 6
    ensures Count(m.fields.time, IsColon) <= 3
    ensures |m.fields.time| == 6 + Count(m.fields.time, IsColon)
    ensures Token(m.fields.serverName) && Token(m.fields.snote)
    ensures '\n' !in m.fields.text
  {
    FindSound(s, m);
    var c :| ShapeAt(s, m.start, c) && c.end == m.end && FieldsAt(s, m.start, c) == m.fields;
    ShapeFields(s, m.start, c);
    TimeGroupsCounts(m.fields.time, 3);
  }

  // ---------------------------------------------------------------------
  // The captures glued back together
  // ---------------------------------------------------------------------

  /** A character at a, then rest. */
  lemma ConsAt(s: string, a: nat, end: nat, x: char, rest: string)
    requires a < end <= |s| && s[a] == x && s[a + 1..end] == rest
    ensures s[a..end] == [x] + rest
  {
    assert s[a..end] == [s[a]] + s[a + 1..end];
  }

  /** x from a to b, then rest. */
  lemma ConcatAt(s: string, a: nat, b: nat, end: nat, x: string, rest: string)
    requires a <= b <= end <= |s| && s[a..b] == x && s[b..end] == rest
    ensures s[a..end] == x + rest
  {
    assert s[a..end] == s[a..b] + s[b..end];
  }

  lemma SnoteTailLaid(s: string, sep1: nat, sep3: nat, end: nat, snote: string, text: string)
    requires sep1 + 7 <= sep3 < end <= |s| && s[sep3 - 1] == ':'
    requires s[sep1 + 5..sep3 - 1] == snote && s[sep3 + 1..end] == text
    ensures s[sep1 + 5..end] == SnoteTail(snote, s[sep3], text)
  {
    ConsAt(s, sep3, end, s[sep3], text);
    ConsAt(s, sep3 - 1, end, ':', [s[sep3]] + text);
    ConcatAt(s, sep1 + 5, sep3 - 1, end, snote, ":" + ([s[sep3]] + text));
  }

  lemma ServerTailLaid(s: string, close: nat, sep1: nat, sep3: nat, end: nat, server: string, snote: string, text: string)
    requires close + 5 <= sep1 && sep1 + 7 <= sep3 < end <= |s|
    requires s[sep1 - 1] == '-' && s[sep1 + 1] == '*' && s[sep1 + 2] == '*' && s[sep1 + 3] == '*'
    requires s[sep3 - 1] == ':'
    requires s[close + 3..sep1 - 1] == server && s[sep1 + 5..sep3 - 1] == snote && s[sep3 + 1..end] == text
    ensures s[close + 3..end] == ServerTail(server, s[sep1], s[sep1 + 4], snote, s[sep3], text)
  {
    var st := SnoteTail(snote, s[sep3], text);
    SnoteTailLaid(s, sep1, sep3, end, snote, text);
    ConsAt(s, sep1 + 4, end, s[sep1 + 4], st);
    assert s[sep1 + 1..sep1 + 4] == "***";
    ConcatAt(s, sep1 + 1, sep1 + 4, end, "***", [s[sep1 + 4]] + st);
    ConsAt(s, sep1, end, s[sep1], "***" + ([s[sep1 + 4]] + st));
    ConsAt(s, sep1 - 1, end, '-', [s[sep1]] + ("***" + ([s[sep1 + 4]] + st)));
    ConcatAt(s, close + 3, sep1 - 1, end, server, "-" + ([s[sep1]] + ("***" + ([s[sep1 + 4]] + st))));
  }

  /** Where the pattern's pieces lie, the matched text spells Assemble of
      the captures and the four `\s` characters. */
  lemma AssembleLaid(s: string, i: nat, c: Cuts)
    requires ShapeAt(s, i, c)
    ensures s[i..c.end] == Assemble(FieldsAt(s, i, c), s[c.close + 1], s[c.sep1], s[c.sep1 + 4], s[c.sep3])
  {
    var f := FieldsAt(s, i, c);
    var st := ServerTail(f.serverName, s[c.sep1], s[c.sep1 + 4], f.snote, s[c.sep3], f.text);
    ServerTailLaid(s, c.close, c.sep1, c.sep3, c.end, f.serverName, f.snote, f.text);
    ConsAt(s, c.close + 2, c.end, '-', st);
    ConsAt(s, c.close + 1, c.end, s[c.close + 1], "-" + st);
    ConsAt(s, c.close, c.end, ']', [s[c.close + 1]] + ("-" + st));
    ConcatAt(s, i + 1, c.close, c.end, f.time, "]" + ([s[c.close + 1]] + ("-" + st)));
    ConsAt(s, i, c.end, '[', f.time + ("]" + ([s[c.close + 1]] + ("-" + st))));
  }

  /** A match that runs to the end of the line leaves the line as its
      prefix followed by the assembled match. */
  lemma AssembleSuffix(s: string, i: nat, c: Cuts)
    requires ShapeAt(s, i, c) && c.end == |s|
    ensures s == s[..i] + Assemble(FieldsAt(s, i, c), s[c.close + 1], s[c.sep1], s[c.sep1 + 4], s[c.sep3])
  {
    AssembleLaid(s, i, c);
    assert s == s[..i] + s[i..c.end];
  }

  /** On a newline-free line (as a line scanner yields) a match runs to the
      end of the line: the line is some prefix followed by the four
      captures glued together by the pattern's fixed pieces. */
  lemma Reassemble(s: string, m: Match)
    requires Find(s) == Some(m)
    requires '\n' !in s
    ensures m.start < m.end == |s|
    ensures exists w0, w1, w2, w3 ::
      && IsSpace(w0) && IsSpace(w1) && IsSpace(w2) && IsSpace(w3)
      && s == s[..m.start] + Assemble(m.fields, w0, w1, w2, w3)
  {
    assert forall k :: 0 <= k < |s| ==> s[k] != '\n';
    FindSound(s, m);
    var c :| ShapeAt(s, m.start, c) && c.end == m.end && FieldsAt(s, m.start, c) == m.fields;
    AssembleSuffix(s, m.start, c);
    var w0, w1, w2, w3 := s[c.close + 1], s[c.sep1], s[c.sep1 + 4], s[c.sep3];
    assert IsSpace(w0) && IsSpace(w1) && IsSpace(w2) && IsSpace(w3);
  }

  // ---------------------------------------------------------------------
  // Assembled lines parse back
  // ---------------------------------------------------------------------

  /** Captures the pattern can produce, with a text that stays on one line. */
  predicate WellFormed(f: Fields) {
    ValidTime(f.time) && Token(f.serverName) && Token(f.snote) && '\n' !in f.text
  }

  /** Where the pieces of Assemble(f, ...) lie. */
  function AssembledCuts(f: Fields): Cuts {
    var close := 1 + |f.time|;
    var sep1 := close + 4 + |f.serverName|;
    var sep3 := sep1 + 6 + |f.snote|;
    Cuts(close, sep1, sep3, sep3 + 1 + |f.text|)
  }

  /** x followed by rest, starting at a. */
  lemma Peel(s: string, a: nat, x: string, rest: string)
    requires a <= |s| && s[a..] == x + rest
    ensures a + |x| <= |s|
    ensures s[a..a + |x|] == x && s[a + |x|..] == rest
    ensures forall k :: 0 <= k < |x| ==> s[a + k] == x[k]
  {
    assert s[a..a + |x|] == s[a..][..|x|];
    assert s[a + |x|..] == s[a..][|x|..];
    forall k | 0 <= k < |x|
      ensures s[a + k] == x[k]
    {
      assert s[a + k] == s[a..][k];
    }
  }

  /** Groups of a slice are groups read in place. */
  lemma {:induction false} TimeGroupsInPlace(s: string, p: nat, q: nat, n: nat)
    requires p <= q <= |s| && TimeGroups(s[p..q], n)
    ensures TimeGroupsAt(s, p, q, n)
    decreases n
  {
    if n > 0 {
      var t := s[p..q];
      assert t[0] == s[p] && t[1] == s[p + 1];
      if TimeGroups(t[2..], n - 1) {
        assert t[2..] == s[p + 2..q];
        TimeGroupsInPlace(s, p + 2, q, n - 1);
      } else {
        assert t[2] == s[p + 2];
        assert t[3..] == s[p + 3..q];
        TimeGroupsInPlace(s, p + 3, q, n - 1);
      }
    }
  }

  /** The pieces of SnoteTail laid out from the notice type on. */
  lemma SnoteTailPieces(s: string, c: Cuts, snote: string, w: char, text: string)
    requires c.sep1 + 5 <= |s| && c.sep3 == c.sep1 + 6 + |snote|
    requires s[c.sep1 + 5..] == SnoteTail(snote, w, text)
    ensures c.sep3 < |s|
    ensures s[c.sep1 + 5..c.sep3 - 1] == snote && s[c.sep3 - 1] == ':'
    ensures s[c.sep3] == w && s[c.sep3 + 1..] == text
  {
    Peel(s, c.sep1 + 5, snote, ":" + ([w] + text));
    Peel(s, c.sep3 - 1, ":", [w] + text);
    Peel(s, c.sep3, [w], text);
  }

  /** The pieces of ServerTail laid out from the server name on, up to the
      notice part. */
  lemma ServerTailPieces(s: string, c: Cuts, server: string, w1: char, w2: char, snote: string, w3: char, text: string)
    requires c.close + 3 <= |s| && c.sep1 == c.close + 4 + |server|
    requires s[c.close + 3..] == ServerTail(server, w1, w2, snote, w3, text)
    ensures c.sep1 + 5 <= |s|
    ensures s[c.close + 3..c.sep1 - 1] == server && s[c.sep1 - 1] == '-' && s[c.sep1] == w1
    ensures s[c.sep1 + 1] == '*' && s[c.sep1 + 2] == '*' && s[c.sep1 + 3] == '*'
    ensures s[c.sep1 + 4] == w2
    ensures s[c.sep1 + 5..] == SnoteTail(snote, w3, text)
  {
    var st := SnoteTail(snote, w3, text);
    Peel(s, c.close + 3, server, "-" + ([w1] + ("***" + ([w2] + st))));
    DashPieces(s, c.sep1 - 1, w1, "***" + ([w2] + st));
    StarsPieces(s, c.sep1 + 1, w2, st);
  }

  /** `-\s` laid out at a, followed by the rest. */
  lemma DashPieces(s: string, a: nat, w: char, rest: string)
    requires a <= |s| && s[a..] == "-" + ([w] + rest)
    ensures a + 2 <= |s|
    ensures s[a] == '-' && s[a + 1] == w
    ensures s[a + 2..] == rest
  {
    Peel(s, a, "-", [w] + rest);
    Peel(s, a + 1, [w], rest);
  }

  /** `\*{3}\s` laid out at a, followed by the rest. */
  lemma StarsPieces(s: string, a: nat, w: char, rest: string)
    requires a <= |s| && s[a..] == "***" + ([w] + rest)
    ensures a + 4 <= |s|
    ensures s[a] == '*' && s[a + 1] == '*' && s[a + 2] == '*' && s[a + 3] == w
    ensures s[a + 4..] == rest
  {
    Peel(s, a, "***", [w] + rest);
    Peel(s, a + 3, [w], rest);
  }

  /** The pieces of Assemble laid out from the start, up to the server part. */
  lemma AssembledHead(s: string, c: Cuts, f: Fields, w0: char, w1: char, w2: char, w3: char)
    requires s == Assemble(f, w0, w1, w2, w3) && c.close == 1 + |f.time|
    ensures c.close + 3 <= |s|
    ensures s[0] == '[' && s[1..c.close] == f.time && s[c.close] == ']'
    ensures s[c.close + 1] == w0 && s[c.close + 2] == '-'
    ensures s[c.close + 3..] == ServerTail(f.serverName, w1, w2, f.snote, w3, f.text)
  {
    var sv := ServerTail(f.serverName, w1, w2, f.snote, w3, f.text);
    assert s[0..] == s;
    Peel(s, 0, "[", f.time + ("]" + ([w0] + ("-" + sv))));
    Peel(s, 1, f.time, "]" + ([w0] + ("-" + sv)));
    Peel(s, c.close, "]", [w0] + ("-" + sv));
    Peel(s, c.close + 1, [w0], "-" + sv);
    Peel(s, c.close + 2, "-", sv);
  }

  /** A token laid out in s leaves no whitespace in its span. */
  lemma TokenAt(s: string, a: nat, t: string)
    requires a + |t| <= |s| && s[a..a + |t|] == t && Token(t)
    ensures forall k :: a <= k < a + |t| ==> !IsSpace(s[k])
  {
    forall k | a <= k < a + |t|
      ensures !IsSpace(s[k])
    {
      assert s[k] == t[k - a];
    }
  }

  /** Where well-formed captures lie at AssembledCuts, separated by the
      pattern's fixed pieces, the pattern fits there with those captures. */
  lemma ShapeFromPieces(s: string, f: Fields, c: Cuts)
    requires WellFormed(f) && c == AssembledCuts(f) && |s| == c.end
    requires s[0] == '[' && s[1..c.close] == f.time && s[c.close] == ']'
    requires IsSpace(s[c.close + 1]) && s[c.close + 2] == '-'
    requires s[c.close + 3..c.sep1 - 1] == f.serverName && s[c.sep1 - 1] == '-' && IsSpace(s[c.sep1])
    requires s[c.sep1 + 1] == '*' && s[c.sep1 + 2] == '*' && s[c.sep1 + 3] == '*' && IsSpace(s[c.sep1 + 4])
    requires s[c.sep1 + 5..c.sep3 - 1] == f.snote && s[c.sep3 - 1] == ':' && IsSpace(s[c.sep3])
    requires s[c.sep3 + 1..] == f.text
    ensures ShapeAt(s, 0, c) && FieldsAt(s, 0, c) == f
  {
    TimeGroupsInPlace(s, 1, c.close, 3);
    TokenAt(s, c.close + 3, f.serverName);
    TokenAt(s, c.sep1 + 5, f.snote);
    forall k | c.sep3 + 1 <= k < c.end
      ensures s[k] != '\n'
    {
      assert s[k] == f.text[k - (c.sep3 + 1)];
    }
    assert s[c.sep3 + 1..c.end] == f.text;
  }

  /** An assembled line has the pattern's shape at its start, with the
      assembled captures. */
  lemma ShapeOfAssembled(f: Fields, w0: char, w1: char, w2: char, w3: char)
    requires WellFormed(f)
    requires IsSpace(w0) && IsSpace(w1) && IsSpace(w2) && IsSpace(w3)
    ensures var s := Assemble(f, w0, w1, w2, w3);
      var c := AssembledCuts(f);
      ShapeAt(s, 0, c) && c.end == |s| && FieldsAt(s, 0, c) == f
  {
    var s := Assemble(f, w0, w1, w2, w3);
    var c := AssembledCuts(f);
    AssembledHead(s, c, f, w0, w1, w2, w3);
    ServerTailPieces(s, c, f.serverName, w1, w2, f.snote, w3, f.text);
    SnoteTailPieces(s, c, f.snote, w3, f.text);
    assert |s| == c.end;
    ShapeFromPieces(s, f, c);
  }

  /** Round trip: the line assembled from well-formed captures and four
      whitespace characters is matched from its first character to its
      last, and the match gives back exactly those captures. */
  lemma ParseAssembled(f: Fields, w0: char, w1: char, w2: char, w3: char)
    requires WellFormed(f)
    requires IsSpace(w0) && IsSpace(w1) && IsSpace(w2) && IsSpace(w3)
    ensures var s := Assemble(f, w0, w1, w2, w3);
      Find(s) == Some(Match(0, |s|, f))
  {
    var s := Assemble(f, w0, w1, w2, w3);
    var c := AssembledCuts(f);
    ShapeOfAssembled(f, w0, w1, w2, w3);
    CutsAtCorrect(s, 0, c);
  }
}
