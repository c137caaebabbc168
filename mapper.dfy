/** The map side of the batch pipeline: the partition function, the routing of map output
    to partition files, the combining mapper's per-partition buffers, and the three stock map
    functions. An input file is its sequence of lines; a partition file is the sequence of
    records written to it. The MD5 digest of a key is the parameter `hash`. */
module Mapper {
  import opened Common
  import opened Ordering
  import Reducer

  // ---------------------------------------------------------------------------------------
  // Characters and the `str` methods the map functions use

  /** `str.isspace()`: the characters Python treats as whitespace. */
  predicate IsSpace(c: char) {
    ('\t' <= c <= '\r') || ('\U{1C}' <= c <= ' ') || c == '\U{85}' || c == '\U{A0}' ||
    c == '\U{1680}' || ('\U{2000}' <= c <= '\U{200A}') || c == '\U{2028}' || c == '\U{2029}' ||
    c == '\U{202F}' || c == '\U{205F}' || c == '\U{3000}'
  }

  /** `str.isalnum()` on ASCII letters and digits. */
  predicate IsAlnum(c: char)
    ensures IsAlnum(c) ==> !IsSpace(c)
  {
    ('a' <= c <= 'z') || ('A' <= c <= 'Z') || ('0' <= c <= '9')
  }

  predicate IsUpper(c: char) {
    'A' <= c <= 'Z'
  }

  function LowerChar(c: char): (d: char)
    ensures !IsUpper(d)
    ensures IsSpace(d) <==> IsSpace(c)
    ensures IsAlnum(d) <==> IsAlnum(c)
  {
    if IsUpper(c) then (c as int + 32) as char else c
  }

  /** `str.lower()` on ASCII letters. */
  function Lower(s: string): (t: string)
    ensures |t| == |s|
    ensures forall i :: 0 <= i < |s| ==> t[i] == LowerChar(s[i])
  {
    seq(|s|, i requires 0 <= i < |s| => LowerChar(s[i]))
  }

  /** The length of the whitespace run at the front of `s`. */
  function LeadingSpace(s: string): (n: nat)
    ensures n <= |s|
    ensures forall i :: 0 <= i < n ==> IsSpace(s[i])
    ensures n < |s| ==> !IsSpace(s[n])
    decreases |s|
  {
    if |s| > 0 && IsSpace(s[0]) then 1 + LeadingSpace(s[1..]) else 0
  }

  /** The length of the whitespace run at the end of `s`. */
  function TrailingSpace(s: string): (n: nat)
    ensures n <= |s|
    ensures forall i :: |s| - n <= i < |s| ==> IsSpace(s[i])
    ensures n < |s| ==> !IsSpace(s[|s| - n - 1])
    decreases |s|
  {
    if |s| > 0 && IsSpace(s[|s| - 1]) then 1 + TrailingSpace(s[..|s| - 1]) else 0
  }

  /** `str.strip()`: the string without its leading and trailing whitespace. */
  function Strip(s: string): (t: string)
    ensures LeadingSpace(s) + |t| <= |s| && t == s[LeadingSpace(s)..LeadingSpace(s) + |t|]
    ensures forall j :: LeadingSpace(s) + |t| <= j < |s| ==> IsSpace(s[j])
    ensures |t| > 0 ==> !IsSpace(t[0]) && !IsSpace(t[|t| - 1])
  {
    var a := LeadingSpace(s);
    if a == |s| then s[..0]
    else
      var b := TrailingSpace(s);
      assert b < |s| - a by {
        assert !IsSpace(s[a]);
      }
      s[a..|s| - b]
  }

  /** The length of the non-whitespace run at the front of `s`. */
  function TokenLen(s: string): (n: nat)
    ensures n <= |s|
    ensures forall i :: 0 <= i < n ==> !IsSpace(s[i])
    ensures n < |s| ==> IsSpace(s[n])
    decreases |s|
  {
    if |s| > 0 && !IsSpace(s[0]) then 1 + TokenLen(s[1..]) else 0
  }

  /** `str.split()` with no separator: the maximal runs of non-whitespace characters. */
  function Split(s: string): seq<string>
    decreases |s|
  {
    if |s| == 0 then []
    else if IsSpace(s[0]) then Split(s[1..])
    else
      var n := TokenLen(s);
      [s[..n]] + Split(s[n..])
  }

  /** The characters of `s` that are not whitespace, in order. */
  function NonSpace(s: string): string
    decreases |s|
  {
    if |s| == 0 then [] else (if IsSpace(s[0]) then [] else [s[0]]) + NonSpace(s[1..])
  }

  function Join(ts: seq<string>): string
    decreases |ts|
  {
    if |ts| == 0 then [] else ts[0] + Join(ts[1..])
  }

  lemma {:induction false} NonSpaceOfToken(s: string)
    requires forall i :: 0 <= i < |s| ==> !IsSpace(s[i])
    ensures NonSpace(s) == s
    decreases |s|
  {
    if |s| > 0 {
      NonSpaceOfToken(s[1..]);
    }
  }

  lemma {:induction false} NonSpaceAppend(a: string, b: string)
    ensures NonSpace(a + b) == NonSpace(a) + NonSpace(b)
    decreases |a|
  {
    if |a| == 0 {
      assert a + b == b;
    } else {
      assert (a + b)[0] == a[0] && (a + b)[1..] == a[1..] + b;
      NonSpaceAppend(a[1..], b);
    }
  }

  /** Splitting loses nothing but whitespace: every token is a non-empty run without
      whitespace, and the tokens put together are the string's non-whitespace characters. */
  lemma {:induction false} SplitTokens(s: string)
    ensures forall t :: t in Split(s) ==> |t| > 0 && forall i :: 0 <= i < |t| ==> !IsSpace(t[i])
    ensures Join(Split(s)) == NonSpace(s)
    decreases |s|
  {
    if |s| > 0 {
      if IsSpace(s[0]) {
        SplitTokens(s[1..]);
      } else {
        var n := TokenLen(s);
        SplitTokens(s[n..]);
        assert s == s[..n] + s[n..];
        NonSpaceAppend(s[..n], s[n..]);
        NonSpaceOfToken(s[..n]);
        assert Split(s)[1..] == Split(s[n..]);
      }
    }
  }

  /** `''.join(c for c in word if c.isalnum())` */
  function Clean(w: string): (r: string)
    ensures forall i :: 0 <= i < |r| ==> IsAlnum(r[i])
    ensures |r| <= |w|
    decreases |w|
  {
    if |w| == 0 then [] else (if IsAlnum(w[0]) then [w[0]] else []) + Clean(w[1..])
  }

  /** Every character of a cleaned lowercase token is a lowercase letter or a digit. */
  lemma {:induction false} CleanKeepsLower(w: string)
    requires forall i :: 0 <= i < |w| ==> !IsUpper(w[i])
    ensures forall i :: 0 <= i < |Clean(w)| ==> !IsUpper(Clean(w)[i])
    decreases |w|
  {
    if |w| > 0 {
      CleanKeepsLower(w[1..]);
    }
  }

  /** The cleaned, non-empty words of `line.lower().split()`. */
  function Words(line: string): seq<string> {
    WordsOf(Split(Lower(line)))
  }

  function WordsOf(tokens: seq<string>): seq<string>
    decreases |tokens|
  {
    if |tokens| == 0 then []
    else (if Clean(tokens[0]) != [] then [Clean(tokens[0])] else []) + WordsOf(tokens[1..])
  }

  /** A word is non-empty, and made of lowercase letters and digits only. */
  predicate IsWord(w: string) {
    |w| > 0 && forall i :: 0 <= i < |w| ==> IsAlnum(w[i]) && !IsUpper(w[i])
  }

  lemma {:induction false} WordsOfAreWords(tokens: seq<string>)
    requires forall t :: t in tokens ==> forall i :: 0 <= i < |t| ==> !IsUpper(t[i])
    ensures forall w :: w in WordsOf(tokens) ==> IsWord(w)
    ensures |WordsOf(tokens)| <= |tokens|
    decreases |tokens|
  {
    if |tokens| > 0 {
      WordsOfAreWords(tokens[1..]);
      CleanKeepsLower(tokens[0]);
    }
  }

  lemma {:induction false} SplitOfLower(s: string)
    requires forall i :: 0 <= i < |s| ==> !IsUpper(s[i])
    ensures forall t :: t in Split(s) ==> forall i :: 0 <= i < |t| ==> !IsUpper(t[i])
    decreases |s|
  {
    if |s| > 0 {
      if IsSpace(s[0]) {
        SplitOfLower(s[1..]);
      } else {
        SplitOfLower(s[TokenLen(s)..]);
      }
    }
  }

  /** Every word is a proper word, and there are no more words than whitespace-separated
      tokens. */
  lemma WordsAreWords(line: string)
    ensures forall w :: w in Words(line) ==> IsWord(w)
    ensures |Words(line)| <= |Split(Lower(line))|
  {
    SplitOfLower(Lower(line));
    WordsOfAreWords(Split(Lower(line)));
  }

  /** A line that is one lowercase alphanumeric word yields exactly that word. */
  lemma SingleWord(w: string)
    requires IsWord(w)
    ensures Words(w) == [w]
  {
    assert Lower(w) == w;
    assert TokenLen(w) == |w| by {
      TokenLenAll(w);
    }
    assert w[..|w|] == w && w[|w|..] == [];
    assert Split(w) == [w];
    CleanAll(w);
    assert WordsOf([w]) == [w] by {
      assert [w][1..] == [];
    }
  }

  lemma {:induction false} TokenLenAll(s: string)
    requires forall i :: 0 <= i < |s| ==> !IsSpace(s[i])
    ensures TokenLen(s) == |s|
    decreases |s|
  {
    if |s| > 0 {
      TokenLenAll(s[1..]);
    }
  }

  lemma {:induction false} CleanAll(s: string)
    requires forall i :: 0 <= i < |s| ==> IsAlnum(s[i])
    ensures Clean(s) == s
    decreases |s|
  {
    if |s| > 0 {
      CleanAll(s[1..]);
      assert s == [s[0]] + s[1..];
    }
  }

  // ---------------------------------------------------------------------------------------
  // The stock map functions

  /** `word_count_map`: `(word, 1)` per word. */
  function WordCountMap(line: string): (out: seq<(string, int)>)
    ensures |out| == |Words(line)|
    ensures forall i :: 0 <= i < |out| ==> out[i] == (Words(line)[i], 1)
  {
    var ws := Words(line);
    seq(|ws|, i requires 0 <= i < |ws| => (ws[i], 1))
  }

  /** `pat` occurs in `s` at position `j`. */
  predicate MatchAt(s: string, pat: string, j: nat) {
    j + |pat| <= |s| && s[j..j + |pat|] == pat
  }

  /** The first occurrence of `pat` in `s` at or after position `i`. */
  function FindFrom(s: string, pat: string, i: nat): (r: Option<nat>)
    requires |pat| > 0
    ensures r.Some? ==> i <= r.value && MatchAt(s, pat, r.value)
    ensures r.Some? ==> forall j :: i <= j < r.value ==> !MatchAt(s, pat, j)
    ensures r.None? ==> forall j :: i <= j ==> !MatchAt(s, pat, j)
    decreases |s| - i
  {
    if i + |pat| > |s| then None
    else if MatchAt(s, pat, i) then Some(i)
    else FindFrom(s, pat, i + 1)
  }

  /** `s.find(pat)`: the position of the first occurrence of `pat` in `s`. */
  function Find(s: string, pat: string): (r: Option<nat>)
    requires |pat| > 0
    ensures r.Some? ==> MatchAt(s, pat, r.value) && forall j :: 0 <= j < r.value ==> !MatchAt(s, pat, j)
    ensures r.None? ==> forall j :: 0 <= j ==> !MatchAt(s, pat, j)
  {
    FindFrom(s, pat, 0)
  }

  /** `str.split(sep, 1)`: the text before the first `sep` and the text after it, or None
      when `sep` does not occur (a one-element result). */
  function SplitOnce(s: string, sep: string): (r: Option<(string, string)>)
    requires |sep| > 0
    ensures r.None? <==> Find(s, sep).None?
    ensures r.Some? ==> s == r.value.0 + sep + r.value.1 && Find(r.value.0 + sep, sep) == Some(|r.value.0|)
  {
    match Find(s, sep)
    case None => None
    case Some(i) =>
      var a, b := s[..i], s[i + |sep|..];
      assert s == a + sep + b;
      FindAt(a + sep, sep, i, s);
      Some((a, b))
  }

  /** The first occurrence of `sep` in `s` is also the first in any prefix that contains it. */
  lemma FindAt(p: string, sep: string, i: nat, s: string)
    requires |sep| > 0 && Find(s, sep) == Some(i) && p == s[..i + |sep|]
    ensures Find(p, sep) == Some(i)
  {
    assert MatchAt(p, sep, i) by {
      assert p[i..i + |sep|] == s[i..i + |sep|];
    }
    forall j | 0 <= j < i ensures !MatchAt(p, sep, j) {
      assert !MatchAt(s, sep, j);
      assert j + |sep| <= |p|;
      assert p[j..j + |sep|] == s[j..j + |sep|];
    }
  }

  /** `inverted_index_map`: `(word, doc_id)` per word of the text after the first tab, or
      nothing when the line has no tab. */
  function InvertedIndexMap(line: string): (out: seq<(string, string)>)
    ensures Find(line, "\t").None? ==> out == []
    ensures Find(line, "\t").Some? ==>
      var i := Find(line, "\t").value;
      var ws := Words(line[i + 1..]);
      |out| == |ws| && forall j :: 0 <= j < |out| ==> out[j] == (ws[j], line[..i])
  {
    match SplitOnce(line, "\t")
    case None => []
    case Some((docId, content)) =>
      var ws := Words(content);
      seq(|ws|, j requires 0 <= j < |ws| => (ws[j], docId))
  }

  /** The text of `s` up to (not including) the first `sep`, or all of `s`. */
  function Before(s: string, sep: string): (r: string)
    requires |sep| > 0
    ensures Find(s, sep).None? ==> r == s
    ensures Find(s, sep).Some? ==> r == s[..Find(s, sep).value]
  {
    match Find(s, sep)
    case None => s
    case Some(i) => s[..i]
  }

  /** `url.split('://')[1].split('/')[0]` when `'://' in url`: the text after the first
      `://`, up to the next `://` or `/`. */
  function Domain(url: string): (d: Option<string>)
    ensures d.None? <==> Find(url, "://").None?
  {
    match Find(url, "://")
    case None => None
    case Some(i) => Some(Before(Before(url[i + 3..], "://"), "/"))
  }

  /** `url_count_map` given the `url` member of the parsed line; None stands for every line
      on which the source yields nothing without looking for `://` (bad JSON, a non-object,
      a missing key, a non-string `url`). */
  function UrlCountMap(url: Option<string>): (out: seq<(string, int)>)
    ensures url.None? ==> out == []
    ensures url.Some? ==> (out == [] <==> Domain(url.value).None?)
    ensures url.Some? && Domain(url.value).Some? ==> out == [(Domain(url.value).value, 1)]
  {
    if url.None? then []
    else match Domain(url.value)
      case None => []
      case Some(d) => [(d, 1)]
  }

  /** A cut of `s` before the first `sep` ends at the end of `s` or right before `sep`. */
  lemma BeforeShape(s: string, sep: string)
    requires |sep| > 0
    ensures |Before(s, sep)| <= |s| && s[..|Before(s, sep)|] == Before(s, sep)
    ensures forall j :: 0 <= j < |Before(s, sep)| ==> !MatchAt(s, sep, j)
    ensures |Before(s, sep)| == |s| || MatchAt(s, sep, |Before(s, sep)|)
  {
  }

  /** The domain holds no `/`. */
  lemma DomainNoSlash(url: string)
    requires Domain(url).Some?
    ensures forall j :: 0 <= j < |Domain(url).value| ==> Domain(url).value[j] != '/'
  {
    var i := Find(url, "://").value;
    var seg := Before(url[i + 3..], "://");
    var d := Before(seg, "/");
    BeforeShape(seg, "/");
    forall j | 0 <= j < |d| ensures d[j] != '/' {
      assert !MatchAt(seg, "/", j);
      assert seg[j..j + 1] == [d[j]];
    }
  }

  /** The domain sits right after the first `://`, and is followed by the end of the URL,
      a `/` or another `://`. */
  lemma DomainShape(url: string, i: nat, d: string)
    requires Find(url, "://") == Some(i) && Domain(url) == Some(d)
    ensures i + 3 + |d| <= |url| && url[i + 3..i + 3 + |d|] == d
    ensures i + 3 + |d| == |url| || url[i + 3 + |d|] == '/' || MatchAt(url, "://", i + 3 + |d|)
  {
    var after := url[i + 3..];
    var seg := Before(after, "://");
    assert d == Before(seg, "/");
    CutShape(after, seg, d);
    var e := i + 3 + |d|;
    assert url[i + 3..e] == after[..|d|];
    if e < |url| {
      assert url[e] == after[|d|];
      MatchShift(url, i + 3, "://", |d|);
    }
  }

  lemma MatchShift(s: string, k: nat, pat: string, j: nat)
    requires k <= |s|
    ensures MatchAt(s[k..], pat, j) ==> MatchAt(s, pat, k + j)
  {
    if MatchAt(s[k..], pat, j) {
      assert s[k + j..k + j + |pat|] == s[k..][j..j + |pat|];
    }
  }

  /** `Before(Before(after, "://"), "/")` is a prefix of `after` followed by nothing, a `/`
      or a `://`. */
  lemma CutShape(after: string, seg: string, d: string)
    requires seg == Before(after, "://") && d == Before(seg, "/")
    ensures |d| <= |after| && after[..|d|] == d
    ensures |d| == |after| || after[|d|] == '/' || MatchAt(after, "://", |d|)
  {
    BeforeShape(after, "://");
    BeforeShape(seg, "/");
    if |d| < |seg| {
      assert MatchAt(seg, "/", |d|);
      assert after[|d|] == seg[|d|];
    } else if |seg| < |after| {
      assert MatchAt(after, "://", |seg|);
    }
  }

  // ---------------------------------------------------------------------------------------
  // Partitioning and routing

  /** Python's `h % n`: the remainder takes the sign of the divisor; None where Python
      raises ZeroDivisionError. */
  function PyMod(h: int, n: int): (r: Option<int>)
    ensures r.None? <==> n == 0
    ensures r.Some? && n > 0 ==> 0 <= r.value < n
    ensures r.Some? && n < 0 ==> n < r.value <= 0
    ensures r.Some? && 0 <= h < n ==> r.value == h
  {
    if n == 0 then None
    else if n > 0 then Some(h % n)
    else if h % n == 0 then Some(0)
    else Some(h % n + n)
  }

  /** `_partition(key)`: `int(md5(key).hexdigest(), 16) % num_partitions`. */
  function Partition(hash: string -> nat, numPartitions: int, key: string): (p: Option<int>)
    ensures numPartitions > 0 ==> p.Some? && 0 <= p.value < numPartitions
  {
    PyMod(hash(key), numPartitions)
  }

  /** The pairs `map_func` yields over a sequence of records, in order. */
  function MapRecords<R, V>(records: seq<R>, mapFunc: R -> seq<(string, V)>): seq<(string, V)>
    decreases |records|
  {
    if |records| == 0 then []
    else MapRecords(records[..|records| - 1], mapFunc) + mapFunc(records[|records| - 1])
  }

  /** What `process_file` does with one line: strip it, skip it when blank, else map it. */
  function LineMap<V>(mapFunc: string -> seq<(string, V)>): string -> seq<(string, V)> {
    line => if Strip(line) == [] then [] else mapFunc(Strip(line))
  }

  /** The pairs `map_func` yields over the lines of a file, blank lines skipped. */
  function MapLines<V>(lines: seq<string>, mapFunc: string -> seq<(string, V)>): seq<(string, V)> {
    MapRecords(lines, LineMap(mapFunc))
  }

  /** The pairs of `pairs` routed to partition `p`, in order. */
  function Routed<V>(pairs: seq<(string, V)>, hash: string -> nat, n: int, p: int): seq<(string, V)>
    decreases |pairs|
  {
    if |pairs| == 0 then []
    else
      var last := pairs[|pairs| - 1];
      Routed(pairs[..|pairs| - 1], hash, n, p) + (if Partition(hash, n, last.0) == Some(p) then [last] else [])
  }

  /** The partition files after writing `pairs`. */
  ghost predicate Wrote<V>(files: seq<seq<(string, V)>>, pairs: seq<(string, V)>, hash: string -> nat, n: int) {
    |files| == n && forall p :: 0 <= p < n ==> files[p] == Routed(pairs, hash, n, p)
  }

  lemma WroteStep<V>(files: seq<seq<(string, V)>>, pairs: seq<(string, V)>, hash: string -> nat, n: int, x: (string, V))
    requires n > 0 && Wrote(files, pairs, hash, n)
    ensures var p := Partition(hash, n, x.0).value;
      Wrote(files[p := files[p] + [x]], pairs + [x], hash, n)
  {
    var s := pairs + [x];
    assert s[..|s| - 1] == pairs;
  }

  /** The writes of one line's pairs. */
  method WritePairs<V>(files0: seq<seq<(string, V)>>, ghost done: seq<(string, V)>, ps: seq<(string, V)>,
                       hash: string -> nat, n: int)
    returns (files: seq<seq<(string, V)>>)
    requires n > 0 && Wrote(files0, done, hash, n)
    ensures Wrote(files, done + ps, hash, n)
  {
    files := files0;
    assert done + ps[..0] == done;
    for j := 0 to |ps|
      invariant Wrote(files, done + ps[..j], hash, n)
    {
      var (key, value) := ps[j];
      var p := Partition(hash, n, key).value;
      WroteStep(files, done + ps[..j], hash, n, ps[j]);
      files := files[p := files[p] + [(key, value)]];
      assert done + ps[..j + 1] == done + ps[..j] + [ps[j]];
    }
    assert ps[..|ps|] == ps;
  }

  lemma MapRecordsSnoc<R, V>(records: seq<R>, mapFunc: R -> seq<(string, V)>, i: nat)
    requires i < |records|
    ensures MapRecords(records[..i + 1], mapFunc) == MapRecords(records[..i], mapFunc) + mapFunc(records[i])
  {
    assert records[..i + 1][..i] == records[..i];
  }

  /** The routing and counting loop of `process_records` with `num_partitions > 0`. */
  method RouteRecords<R, V>(records: seq<R>, mapFunc: R -> seq<(string, V)>, hash: string -> nat, n: int)
    returns (files: seq<seq<(string, V)>>, count: nat)
    requires n > 0
    ensures Wrote(files, MapRecords(records, mapFunc), hash, n)
    ensures count == |MapRecords(records, mapFunc)|
  {
    files := seq(n, _ => []);
    count := 0;
    assert Wrote(files, [], hash, n);
    for i := 0 to |records|
      invariant Wrote(files, MapRecords(records[..i], mapFunc), hash, n)
      invariant count == |MapRecords(records[..i], mapFunc)|
    {
      ghost var done := MapRecords(records[..i], mapFunc);
      var ps := mapFunc(records[i]);
      MapRecordsSnoc(records, mapFunc, i);
      files := WritePairs(files, done, ps, hash, n);
      count := count + |ps|;
    }
    assert records[..|records|] == records;
  }

  /** The same loop with no partition files: it fails at the first pair. */
  method FailOnPair<R, V>(records: seq<R>, mapFunc: R -> seq<(string, V)>) returns (failed: bool)
    ensures failed <==> MapRecords(records, mapFunc) != []
  {
    for i := 0 to |records|
      invariant MapRecords(records[..i], mapFunc) == []
    {
      MapRecordsSnoc(records, mapFunc, i);
      if mapFunc(records[i]) != [] {
        MapRecordsPrefix(records, mapFunc, i + 1);
        return true;
      }
    }
    assert records[..|records|] == records;
    return false;
  }

  /** `Mapper.process_records`: the records written to each partition file and the record
      count. None is the exception the source raises when a pair has to be routed with no
      partition files (`num_partitions <= 0`: a zero modulus, or a negative remainder that
      names no file). */
  method ProcessRecords<R, V>(records: seq<R>, mapFunc: R -> seq<(string, V)>, hash: string -> nat, n: int)
    returns (r: Option<(seq<seq<(string, V)>>, nat)>)
    ensures n > 0 ==> r.Some? && Wrote(r.value.0, MapRecords(records, mapFunc), hash, n)
    ensures n > 0 ==> r.value.1 == |MapRecords(records, mapFunc)|
    ensures n <= 0 ==> (r.None? <==> MapRecords(records, mapFunc) != [])
    ensures n <= 0 && r.Some? ==> r.value == ([], 0)
  {
    if n <= 0 {
      var failed := FailOnPair(records, mapFunc);
      if failed {
        return None;
      }
      return Some(([], 0));
    }
    var files, count := RouteRecords(records, mapFunc, hash, n);
    return Some((files, count));
  }

  /** `Mapper.process_file`: `process_records` over the lines of the input file, each line
      stripped and the blank ones skipped. */
  method ProcessFile<V>(lines: seq<string>, mapFunc: string -> seq<(string, V)>, hash: string -> nat, n: int)
    returns (r: Option<(seq<seq<(string, V)>>, nat)>)
    ensures n > 0 ==> r.Some? && Wrote(r.value.0, MapLines(lines, mapFunc), hash, n) && r.value.1 == |MapLines(lines, mapFunc)|
    ensures n <= 0 ==> (r.None? <==> MapLines(lines, mapFunc) != [])
    ensures n <= 0 && r.Some? ==> r.value == ([], 0)
  {
    r := ProcessRecords(lines, LineMap(mapFunc), hash, n);
  }

  /** The pairs of the first records come first. */
  lemma {:induction false} MapRecordsPrefix<R, V>(records: seq<R>, mapFunc: R -> seq<(string, V)>, k: nat)
    requires k <= |records|
    ensures MapRecords(records[..k], mapFunc) <= MapRecords(records, mapFunc)
    decreases |records| - k
  {
    if k < |records| {
      MapRecordsPrefix(records, mapFunc, k + 1);
      MapRecordsSnoc(records, mapFunc, k);
      var a, b := MapRecords(records[..k], mapFunc), MapRecords(records[..k + 1], mapFunc);
      assert b[..|a|] == a;
    } else {
      assert records[..k] == records;
    }
  }

  /** A line contributes its pairs exactly when it is not blank after stripping. */
  lemma MapLinesSnoc<V>(lines: seq<string>, mapFunc: string -> seq<(string, V)>, i: nat)
    requires i < |lines|
    ensures MapLines(lines[..i + 1], mapFunc) ==
      MapLines(lines[..i], mapFunc) + (if Strip(lines[i]) == [] then [] else mapFunc(Strip(lines[i])))
  {
    MapRecordsSnoc(lines, LineMap(mapFunc), i);
  }

  // ---------------------------------------------------------------------------------------
  // Where the records go

  /** A record reaches partition `p` exactly when it was yielded and its key hashes to `p`. */
  lemma {:induction false} RoutedMembers<V>(pairs: seq<(string, V)>, hash: string -> nat, n: int, p: int, x: (string, V))
    ensures x in Routed(pairs, hash, n, p) <==> x in pairs && Partition(hash, n, x.0) == Some(p)
    decreases |pairs|
  {
    if |pairs| > 0 {
      var init := pairs[..|pairs| - 1];
      RoutedMembers(init, hash, n, p, x);
      assert pairs == init + [pairs[|pairs| - 1]];
    }
  }

  /** Records with equal keys land in the same partition. */
  lemma SameKeySamePartition<V>(pairs: seq<(string, V)>, hash: string -> nat, n: int, p: int, q: int,
                                x: (string, V), y: (string, V))
    requires x in Routed(pairs, hash, n, p) && y in Routed(pairs, hash, n, q) && x.0 == y.0
    ensures p == q
  {
    RoutedMembers(pairs, hash, n, p, x);
    RoutedMembers(pairs, hash, n, q, y);
  }

  /** The number of records over all partition files. */
  function TotalLen<T>(files: seq<seq<T>>): nat
    decreases |files|
  {
    if |files| == 0 then 0 else TotalLen(files[..|files| - 1]) + |files[|files| - 1]|
  }

  lemma {:induction false} TotalLenUpdate<T>(files: seq<seq<T>>, p: nat, x: T)
    requires p < |files|
    ensures TotalLen(files[p := files[p] + [x]]) == TotalLen(files) + 1
    decreases |files|
  {
    var g := files[p := files[p] + [x]];
    var m := |files| - 1;
    if p < m {
      assert g[..m] == files[..m][p := files[p] + [x]];
      TotalLenUpdate(files[..m], p, x);
    } else {
      assert g[..m] == files[..m];
    }
  }

  /** With `num_partitions > 0` every yielded record is written to exactly one partition
      file, so the files hold `records` lines between them. */
  lemma {:induction false} WroteTotal<V>(files: seq<seq<(string, V)>>, pairs: seq<(string, V)>, hash: string -> nat, n: int)
    requires n > 0 && Wrote(files, pairs, hash, n)
    ensures TotalLen(files) == |pairs|
    decreases |pairs|
  {
    if |pairs| == 0 {
      ZeroPrefix(files, n);
      assert files[..n] == files;
    } else {
      var init, x := pairs[..|pairs| - 1], pairs[|pairs| - 1];
      var q := Partition(hash, n, x.0).value;
      var f := seq(n, p requires 0 <= p < n => Routed(init, hash, n, p));
      WroteTotal(f, init, hash, n);
      TotalLenUpdate(f, q, x);
      forall p | 0 <= p < n ensures files[p] == f[q := f[q] + [x]][p] {
        assert pairs[..|pairs| - 1] == init;
      }
      assert files == f[q := f[q] + [x]];
    }
  }

  lemma {:induction false} ZeroPrefix<T>(files: seq<seq<T>>, m: nat)
    requires m <= |files| && forall p :: 0 <= p < m ==> files[p] == []
    ensures TotalLen(files[..m]) == 0
    decreases m
  {
    if m > 0 {
      assert files[..m][..m - 1] == files[..m - 1];
      ZeroPrefix(files, m - 1);
    }
  }

  // ---------------------------------------------------------------------------------------
  // CombiningMapper

  /** One buffer update: a buffered key's value becomes `combine(key, [old, value])`, a new
      key is buffered with its value. */
  function Absorb<V>(buffer: map<string, V>, x: (string, V), combine: (string, seq<V>) -> V): map<string, V> {
    if x.0 in buffer then buffer[x.0 := combine(x.0, [buffer[x.0], x.1])] else buffer[x.0 := x.1]
  }

  /** A partition buffer after the records routed to it. */
  function Combined<V>(pairs: seq<(string, V)>, combine: (string, seq<V>) -> V): map<string, V>
    decreases |pairs|
  {
    if |pairs| == 0 then map[]
    else Absorb(Combined(pairs[..|pairs| - 1], combine), pairs[|pairs| - 1], combine)
  }

  /** The values yielded with key `k`, in order. */
  function KeyValues<V>(pairs: seq<(string, V)>, k: string): seq<V>
    decreases |pairs|
  {
    if |pairs| == 0 then []
    else KeyValues(pairs[..|pairs| - 1], k) + (if pairs[|pairs| - 1].0 == k then [pairs[|pairs| - 1].1] else [])
  }

  /** The keys of a sequence of pairs. */
  ghost function KeysOf<V>(pairs: seq<(string, V)>): set<string> {
    set x | x in pairs :: x.0
  }

  /** The left fold of `combine` over a key's values, starting from the first. */
  function Fold<V>(k: string, vs: seq<V>, combine: (string, seq<V>) -> V): V
    requires |vs| > 0
    decreases |vs|
  {
    if |vs| == 1 then vs[0] else combine(k, [Fold(k, vs[..|vs| - 1], combine), vs[|vs| - 1]])
  }

  /** A buffer holds a key exactly when some record has it, and its value is the left fold
      of `combine` over that key's values in input order. */
  lemma {:induction false} CombinedIsFold<V>(pairs: seq<(string, V)>, combine: (string, seq<V>) -> V, k: string)
    ensures k in Combined(pairs, combine) <==> KeyValues(pairs, k) != []
    ensures k in Combined(pairs, combine) ==> Combined(pairs, combine)[k] == Fold(k, KeyValues(pairs, k), combine)
    decreases |pairs|
  {
    if |pairs| > 0 {
      var init, x := pairs[..|pairs| - 1], pairs[|pairs| - 1];
      CombinedIsFold(init, combine, k);
      var vs := KeyValues(init, k);
      assert KeyValues(pairs, k) == vs + (if x.0 == k then [x.1] else []);
      assert Combined(pairs, combine) == Absorb(Combined(init, combine), x, combine);
      if x.0 == k && vs != [] {
        assert (vs + [x.1])[..|vs|] == vs;
        assert Fold(k, vs + [x.1], combine) == combine(k, [Fold(k, vs, combine), x.1]);
      } else if x.0 == k {
        assert KeyValues(pairs, k) == [x.1];
      } else {
        assert KeyValues(pairs, k) == vs;
      }
    }
  }

  /** The buffer's keys are the keys of its records. */
  lemma {:induction false} CombinedKeys<V>(pairs: seq<(string, V)>, combine: (string, seq<V>) -> V)
    ensures Combined(pairs, combine).Keys == KeysOf(pairs)
    decreases |pairs|
  {
    if |pairs| > 0 {
      var init := pairs[..|pairs| - 1];
      CombinedKeys(init, combine);
      assert pairs == init + [pairs[|pairs| - 1]];
    }
  }

  /** With `sum_reduce` as the combiner the fold is the sum, so a combined partition reduces
      to the same sums as the raw records. */
  lemma {:induction false} FoldSum(k: string, vs: seq<int>)
    requires |vs| > 0
    ensures Fold(k, vs, Reducer.SumReduce) == Reducer.SumReduce(k, vs)
    decreases |vs|
  {
    if |vs| > 1 {
      var init := vs[..|vs| - 1];
      FoldSum(k, init);
      assert Fold(k, vs, Reducer.SumReduce) == Reducer.SumReduce(k, [Fold(k, init, Reducer.SumReduce), vs[|vs| - 1]]);
      var t := [Sum(init), vs[|vs| - 1]];
      assert t[..1][..0] == [];
      assert Sum(t[..1]) == Sum(init);
      assert Sum(t) == Sum(init) + vs[|vs| - 1];
      assert vs == init + [vs[|vs| - 1]];
      SumAppend(init, [vs[|vs| - 1]]);
      assert Sum([vs[|vs| - 1]]) == vs[|vs| - 1] by {
        assert [vs[|vs| - 1]][..0] == [];
      }
    } else {
      assert vs[..0] == [];
      assert Sum(vs) == vs[0];
    }
  }

  /** With `sum_reduce` as the combiner, a buffered value is `sum_reduce` of all the values
      yielded with its key. */
  lemma CombinedSums(pairs: seq<(string, int)>, k: string)
    requires k in Combined(pairs, Reducer.SumReduce)
    ensures Combined(pairs, Reducer.SumReduce)[k] == Reducer.SumReduce(k, KeyValues(pairs, k))
  {
    CombinedIsFold(pairs, Reducer.SumReduce, k);
    FoldSum(k, KeyValues(pairs, k));
  }

  /** A buffer's items in ascending key order: `sorted(buffer.items())`, keys being distinct. */
  ghost function Items<V>(buffer: map<string, V>): (items: seq<(string, V)>)
    ensures |items| == |buffer.Keys|
  {
    var ks := SortedKeysOf(buffer);
    seq(|ks|, i requires 0 <= i < |ks| => (ks[i], buffer[ks[i]]))
  }

  /** The items are one line per buffered key, in strictly ascending key order, each with
      its buffered value. */
  lemma ItemsShape<V>(buffer: map<string, V>)
    ensures SortedStrict(Reducer.Firsts(Items(buffer)))
    ensures forall k :: k in buffer <==> k in Reducer.Firsts(Items(buffer))
    ensures forall i :: 0 <= i < |Items(buffer)| ==>
      Items(buffer)[i].0 in buffer && Items(buffer)[i].1 == buffer[Items(buffer)[i].0]
  {
    var ks := SortedKeysOf(buffer);
    assert Reducer.Firsts(Items(buffer)) == ks;
  }

  method SortedItems<V>(buffer: map<string, V>) returns (items: seq<(string, V)>)
    ensures items == Items(buffer)
  {
    var ks := SortedKeys(buffer);
    SortedUnique(ks, SortedKeysOf(buffer));
    items := [];
    for j := 0 to |ks|
      invariant items == Items(buffer)[..j]
    {
      assert ks[j] in ks;
      items := items + [(ks[j], buffer[ks[j]])];
      assert items == Items(buffer)[..j + 1];
    }
  }

  /** The partition files `CombiningMapper.process_file` writes for a stream of records. */
  ghost function CombinedFiles<V>(pairs: seq<(string, V)>, hash: string -> nat, n: nat, combine: (string, seq<V>) -> V)
    : seq<seq<(string, V)>>
  {
    seq(n, p requires 0 <= p < n => Items(Combined(Routed(pairs, hash, n, p), combine)))
  }

  /** Every buffer is the combination of the records routed to its partition. */
  ghost predicate Buffered<V>(buffers: seq<map<string, V>>, pairs: seq<(string, V)>, hash: string -> nat, n: int,
                              combine: (string, seq<V>) -> V)
  {
    |buffers| == n && forall p :: 0 <= p < n ==> buffers[p] == Combined(Routed(pairs, hash, n, p), combine)
  }

  lemma BufferedStep<V>(buffers: seq<map<string, V>>, pairs: seq<(string, V)>, hash: string -> nat, n: int,
                        combine: (string, seq<V>) -> V, x: (string, V))
    requires n > 0 && Buffered(buffers, pairs, hash, n, combine)
    ensures var p := Partition(hash, n, x.0).value;
      Buffered(buffers[p := Absorb(buffers[p], x, combine)], pairs + [x], hash, n, combine)
  {
    var s := pairs + [x];
    var q := Partition(hash, n, x.0).value;
    assert s[..|s| - 1] == pairs;
    forall p | 0 <= p < n
      ensures buffers[q := Absorb(buffers[q], x, combine)][p] == Combined(Routed(s, hash, n, p), combine)
    {
      assert Routed(s, hash, n, p) == Routed(pairs, hash, n, p) + (if p == q then [x] else []);
      if p == q {
        CombinedSnoc(Routed(pairs, hash, n, p), x, combine);
      } else {
        assert Routed(pairs, hash, n, p) + [] == Routed(pairs, hash, n, p);
      }
    }
  }

  lemma CombinedSnoc<V>(pairs: seq<(string, V)>, x: (string, V), combine: (string, seq<V>) -> V)
    ensures Combined(pairs + [x], combine) == Absorb(Combined(pairs, combine), x, combine)
  {
    var s := pairs + [x];
    assert s[..|s| - 1] == pairs;
  }

  /** The update of one buffer by one pair. */
  method Update<V>(buffer0: map<string, V>, key: string, value: V, combine: (string, seq<V>) -> V)
    returns (buffer: map<string, V>)
    ensures buffer == Absorb(buffer0, (key, value), combine)
  {
    buffer := buffer0;
    if key in buffer {
      buffer := buffer[key := combine(key, [buffer[key], value])];
    } else {
      buffer := buffer[key := value];
    }
  }

  /** The buffer updates of one line's pairs. */
  method BufferPairs<V>(buffers0: seq<map<string, V>>, ghost done: seq<(string, V)>, ps: seq<(string, V)>,
                        hash: string -> nat, n: int, combine: (string, seq<V>) -> V)
    returns (buffers: seq<map<string, V>>)
    requires n > 0 && Buffered(buffers0, done, hash, n, combine)
    ensures Buffered(buffers, done + ps, hash, n, combine)
  {
    buffers := buffers0;
    assert done + ps[..0] == done;
    for j := 0 to |ps|
      invariant Buffered(buffers, done + ps[..j], hash, n, combine)
    {
      var (key, value) := ps[j];
      var p := Partition(hash, n, key).value;
      BufferedStep(buffers, done + ps[..j], hash, n, combine, ps[j]);
      var buffer := Update(buffers[p], key, value, combine);
      buffers := buffers[p := buffer];
      assert done + ps[..j + 1] == done + ps[..j] + [ps[j]];
    }
    assert ps[..|ps|] == ps;
  }

  /** The buffering loop of `CombiningMapper.process_file`. */
  method BufferLines<V>(lines: seq<string>, mapFunc: string -> seq<(string, V)>, hash: string -> nat, n: int,
                        combine: (string, seq<V>) -> V)
    returns (buffers: seq<map<string, V>>)
    requires n > 0
    ensures Buffered(buffers, MapLines(lines, mapFunc), hash, n, combine)
  {
    buffers := seq(n, _ => map[]);
    assert Buffered(buffers, [], hash, n, combine);
    for i := 0 to |lines|
      invariant Buffered(buffers, MapLines(lines[..i], mapFunc), hash, n, combine)
    {
      ghost var done := MapLines(lines[..i], mapFunc);
      var line := Strip(lines[i]);
      MapLinesSnoc(lines, mapFunc, i);
      if line != [] {
        buffers := BufferPairs(buffers, done, mapFunc(line), hash, n, combine);
      } else {
        assert done + [] == done;
      }
    }
    assert lines[..|lines|] == lines;
  }

  /** The first `|files|` buffers written out as sorted items. */
  ghost predicate WroteItems<V>(files: seq<seq<(string, V)>>, buffers: seq<map<string, V>>) {
    |files| <= |buffers| && forall p :: 0 <= p < |files| ==> files[p] == Items(buffers[p])
  }

  lemma WroteItemsStep<V>(files: seq<seq<(string, V)>>, buffers: seq<map<string, V>>, items: seq<(string, V)>)
    requires WroteItems(files, buffers) && |files| < |buffers| && items == Items(buffers[|files|])
    ensures WroteItems(files + [items], buffers)
    ensures TotalLen(files + [items]) == TotalLen(files) + |items|
  {
    var f := files + [items];
    assert f[..|f| - 1] == files;
    forall p | 0 <= p < |f|
      ensures f[p] == Items(buffers[p])
    {
      if p == |files| {
        assert f[p] == items;
      } else {
        assert f[p] == files[p];
      }
    }
  }

  /** The writing loop: every buffer's sorted items, and the number of lines written. */
  method WriteBuffers<V>(buffers: seq<map<string, V>>) returns (files: seq<seq<(string, V)>>, count: nat)
    ensures |files| == |buffers| && WroteItems(files, buffers)
    ensures count == TotalLen(files)
  {
    files := [];
    count := 0;
    for i := 0 to |buffers|
      invariant |files| == i && WroteItems(files, buffers)
      invariant count == TotalLen(files)
    {
      var items := SortedItems(buffers[i]);
      WroteItemsStep(files, buffers, items);
      files := files + [items];
      count := count + |items|;
    }
  }

  /** `CombiningMapper.process_file`: the partition files and the record count. None is the
      exception the source raises when a pair has to be buffered with no partition buffers
      (`num_partitions <= 0`). */
  method CombiningProcessFile<V>(lines: seq<string>, mapFunc: string -> seq<(string, V)>, hash: string -> nat, n: int,
                                 combine: (string, seq<V>) -> V)
    returns (r: Option<(seq<seq<(string, V)>>, nat)>)
    ensures n > 0 ==> r.Some? && r.value.0 == CombinedFiles(MapLines(lines, mapFunc), hash, n, combine)
    ensures n > 0 ==> r.value.1 == TotalLen(r.value.0)
    ensures n <= 0 ==> (r.None? <==> MapLines(lines, mapFunc) != [])
    ensures n <= 0 && r.Some? ==> r.value == ([], 0)
  {
    if n <= 0 {
      var failed := FailOnPair(lines, LineMap(mapFunc));
      if failed {
        return None;
      }
      return Some(([], 0));
    }
    var buffers := BufferLines(lines, mapFunc, hash, n, combine);
    var files, count := WriteBuffers(buffers);
    return Some((files, count));
  }

  /** The keys of partition `p`. */
  ghost function Bucket(keys: set<string>, hash: string -> nat, n: int, p: int): set<string> {
    set k | k in keys && Partition(hash, n, k) == Some(p)
  }

  /** The keys of the partitions below `m`. */
  ghost function BucketsBelow(keys: set<string>, hash: string -> nat, n: int, m: int): set<string> {
    set k | k in keys && Partition(hash, n, k).Some? && Partition(hash, n, k).value < m
  }

  /** Partition `p` of the combined output holds one line per key hashed to `p`. */
  lemma CombinedFileSize<V>(pairs: seq<(string, V)>, hash: string -> nat, n: int, combine: (string, seq<V>) -> V, p: int)
    ensures |Items(Combined(Routed(pairs, hash, n, p), combine))| == |Bucket(KeysOf(pairs), hash, n, p)|
  {
    var routed := Routed(pairs, hash, n, p);
    CombinedKeys(routed, combine);
    forall k ensures k in KeysOf(routed) <==> k in Bucket(KeysOf(pairs), hash, n, p) {
      if k in KeysOf(routed) {
        var x :| x in routed && x.0 == k;
        RoutedMembers(pairs, hash, n, p, x);
      }
      if k in Bucket(KeysOf(pairs), hash, n, p) {
        var x :| x in pairs && x.0 == k;
        RoutedMembers(pairs, hash, n, p, x);
      }
    }
    assert KeysOf(routed) == Bucket(KeysOf(pairs), hash, n, p);
  }

  lemma TotalLenPrefix<T>(files: seq<seq<T>>, m: nat)
    requires 0 < m <= |files|
    ensures TotalLen(files[..m]) == TotalLen(files[..m - 1]) + |files[m - 1]|
  {
    assert files[..m][..m - 1] == files[..m - 1];
  }

  /** The partitions below `m + 1` are those below `m` and partition `m`. */
  lemma BucketsStep(keys: set<string>, hash: string -> nat, n: int, m: int)
    ensures |BucketsBelow(keys, hash, n, m + 1)| == |BucketsBelow(keys, hash, n, m)| + |Bucket(keys, hash, n, m)|
  {
    var below, bucket := BucketsBelow(keys, hash, n, m), Bucket(keys, hash, n, m);
    assert BucketsBelow(keys, hash, n, m + 1) == below + bucket;
    assert below * bucket == {};
  }

  lemma {:induction false} CombinedPrefixCount<V>(pairs: seq<(string, V)>, hash: string -> nat, n: nat,
                                                 combine: (string, seq<V>) -> V, m: nat)
    requires m <= n
    ensures TotalLen(CombinedFiles(pairs, hash, n, combine)[..m]) == |BucketsBelow(KeysOf(pairs), hash, n, m)|
    decreases m
  {
    var files := CombinedFiles(pairs, hash, n, combine);
    if m == 0 {
      assert BucketsBelow(KeysOf(pairs), hash, n, 0) == {};
    } else {
      CombinedPrefixCount(pairs, hash, n, combine, m - 1);
      TotalLenPrefix(files, m);
      CombinedFileSize(pairs, hash, n, combine, m - 1);
      BucketsStep(KeysOf(pairs), hash, n, m - 1);
    }
  }

  /** `records` of `CombiningMapper.process_file` is the number of distinct keys yielded:
      each key is written once, to its one partition. */
  lemma CombinedCount<V>(pairs: seq<(string, V)>, hash: string -> nat, n: int, combine: (string, seq<V>) -> V)
    requires n > 0
    ensures TotalLen(CombinedFiles(pairs, hash, n, combine)) == |KeysOf(pairs)|
  {
    var files := CombinedFiles(pairs, hash, n, combine);
    CombinedPrefixCount(pairs, hash, n, combine, n);
    assert files[..n] == files;
    assert BucketsBelow(KeysOf(pairs), hash, n, n) == KeysOf(pairs);
  }
}
