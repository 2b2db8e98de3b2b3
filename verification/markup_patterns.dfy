/** The three regular expressions of `correctMarkup`, each as a matcher that
    answers what the JavaScript engine answers when the expression is tried
    at the start of a string: the length of the match found there, or
    nothing. Beside each matcher stands a declarative description of the
    text it matches, and a lemma that the two agree. */
module MarkupPatterns {
  import opened Wrappers
  import opened Text

  /** One rewrite pass: which expression it searches for. */
  datatype Rule =
    | AbsoluteUrl(port: nat)   // the local server's origin, built from the port
    | ChunkScript              // a script tag that loads a `./chunk-` file
    | StyleInject              // a `<word>.styleInject(<quoted>);` call

  const ChunkTagOpen: string := "<script src=\"./chunk-"
  const ScriptClose: string := "></script>"
  const StyleInjectOpen: string := ".styleInject("

  /** The absolute origin of the local server, as the page refers to it. */
  function LocalhostPrefix(port: nat): string {
    "http://localhost:" + Decimal(port) + "/"
  }

  /** What a match is replaced with. */
  function Replacement(rule: Rule): string {
    match rule
    case AbsoluteUrl(_) => "./"
    case ChunkScript => ""
    case StyleInject => ""
  }

  /** The length of the longest prefix of `s` free of `stop`: what the greedy
      class `[^stop]*` consumes. */
  function RunBefore(s: string, stop: char): (n: nat)
    ensures n <= |s|
    ensures forall i :: 0 <= i < n ==> s[i] != stop
    ensures n < |s| ==> s[n] == stop
  {
    if |s| == 0 || s[0] == stop then 0 else 1 + RunBefore(s[1..], stop)
  }

  /** The length of the longest prefix of `s` made of `\w` characters. */
  function WordRun(s: string): (n: nat)
    ensures n <= |s|
    ensures forall i :: 0 <= i < n ==> IsWordChar(s[i])
    ensures n < |s| ==> !IsWordChar(s[n])
  {
    if |s| == 0 || !IsWordChar(s[0]) then 0 else 1 + WordRun(s[1..])
  }

  /** The closing `q);` of a `styleInject` call quoted with `q` starts at
      position `i` of `s`. */
  predicate ClosesAt(s: string, i: nat, q: char) {
    i + 3 <= |s| && s[i] == q && s[i + 1] == ')' && s[i + 2] == ';'
  }

  /** Position `i` of `s` can belong to a lazy body closed by `q`: it holds
      no line terminator, and no closer starts there. */
  predicate InBody(s: string, i: nat, q: char) {
    i < |s| && !IsLineTerminator(s[i]) && !ClosesAt(s, i, q)
  }

  /** The lazy `.*?` followed by `\1\);`: the shortest body, free of line
      terminators, that is followed by the closer; nothing when a line
      terminator or the end of the text comes first. */
  function LazyBody(s: string, q: char): (r: Option<nat>)
    ensures r.Some? ==> ClosesAt(s, r.value, q)
    ensures r.Some? ==> forall i :: 0 <= i < r.value ==> InBody(s, i, q)
    ensures r.None? ==> forall k :: 0 <= k <= |s| && ClosesAt(s, k, q) ==>
                          exists i :: 0 <= i < k && IsLineTerminator(s[i])
  {
    if ClosesAt(s, 0, q) then Some(0)
    else if |s| == 0 || IsLineTerminator(s[0]) then None
    else
      var r := LazyBody(s[1..], q);
      assert forall k :: 1 <= k <= |s| ==> ClosesAt(s, k, q) == ClosesAt(s[1..], k - 1, q);
      assert forall k :: 1 <= k <= |s| ==> InBody(s, k, q) == InBody(s[1..], k - 1, q);
      match r
      case None => None
      case Some(k) => Some(k + 1)
  }

  predicate IsQuote(c: char) {
    c == '"' || c == '\''
  }

  function MatchAbsoluteUrl(port: nat, t: string): Option<nat> {
    if StartsWith(t, LocalhostPrefix(port)) then Some(|LocalhostPrefix(port)|) else None
  }

  /** `[^"]+` and `[^>]+` can only give back characters that the next literal
      (`"`, then `>`) would refuse, so each takes its longest run and the
      match, if any, is unique. */
  function MatchChunkScript(t: string): Option<nat> {
    if !StartsWith(t, ChunkTagOpen) then None
    else
      match ChunkTail(t[|ChunkTagOpen|..])
      case None => None
      case Some(m) => Some(|ChunkTagOpen| + m)
  }

  /** The part of the chunk-script expression after `chunk-`: the length
      of `([^"]+)"[^>]+><\/script>` matched at the start of `rest`. */
  function ChunkTail(rest: string): Option<nat> {
    var x := RunBefore(rest, '"');
    if x == 0 || x == |rest| then None
    else
      var after := rest[x + 1..];
      var y := RunBefore(after, '>');
      if y == 0 || !StartsWith(after[y..], ScriptClose) then None
      else Some(x + 1 + y + |ScriptClose|)
  }

  /** `\w+` must be followed by `.`, which is not a word character, so it
      takes the longest word run; the quote fixes the closer the lazy body
      looks for. */
  function MatchStyleInject(t: string): Option<nat> {
    var w := WordRun(t);
    if w == 0 then None
    else
      match CallTail(t[w..])
      case None => None
      case Some(m) => Some(w + m)
  }

  /** The part of the style-inject expression after the word: the length of
      `\.styleInject\((["']).*?\1\);` matched at the start of `s`. */
  function CallTail(s: string): Option<nat> {
    if !StartsWith(s, StyleInjectOpen) then None
    else
      match QuotedTail(s[|StyleInjectOpen|..])
      case None => None
      case Some(m) => Some(|StyleInjectOpen| + m)
  }

  /** The length of `(["']).*?\1\);` matched at the start of `v`. */
  function QuotedTail(v: string): Option<nat> {
    if |v| == 0 || !IsQuote(v[0]) then None
    else
      match LazyBody(v[1..], v[0])
      case None => None
      case Some(k) => Some(k + 4)
  }

  /** The match of `rule` at the start of `t`. A match is never empty and
      always longer than its replacement. */
  function MatchAt(rule: Rule, t: string): (r: Option<nat>)
    ensures r.Some? ==> 0 < r.value <= |t| && |Replacement(rule)| < r.value
  {
    match rule
    case AbsoluteUrl(port) => MatchAbsoluteUrl(port, t)
    case ChunkScript => MatchChunkScript(t)
    case StyleInject => MatchStyleInject(t)
  }

  /** A whole chunk-loader tag: `<script src="./chunk-X"Y></script>` where X
      is non-empty and free of `"`, and Y is non-empty and free of `>`. */
  predicate IsChunkScriptTag(u: string) {
    StartsWith(u, ChunkTagOpen) && IsChunkTail(u[|ChunkTagOpen|..])
  }

  /** `X"Y></script>` with X non-empty and free of `"`, Y non-empty and free
      of `>`. */
  predicate IsChunkTail(v: string) {
    && EndsWith(v, ScriptClose)
    && exists j :: 0 <= j < |v| && IsChunkTailQuote(v, j)
  }

  /** The `"` ending X sits at `j`: X before it is non-empty and free of `"`,
      and Y after it, up to the closing tag, is non-empty and free of `>`. */
  predicate IsChunkTailQuote(v: string, j: int) {
    && 0 < j < |v| - |ScriptClose| - 1 && v[j] == '"'
    && (forall i :: 0 <= i < j ==> v[i] != '"')
    && (forall i :: j < i < |v| - |ScriptClose| ==> v[i] != '>')
  }

  /** The argument list of a `styleInject` call after its `(`: a quote, a
      body free of line terminators in which the closer does not yet occur,
      and the closer. */
  predicate IsQuotedArgument(v: string) {
    && 4 <= |v|
    && IsQuote(v[0])
    && ClosesAt(v, |v| - 3, v[0])
    && forall i :: 1 <= i < |v| - 3 ==> InBody(v, i, v[0])
  }

  /** A whole `styleInject` call: a word, `.styleInject(`, and a quoted
      argument. */
  predicate IsStyleInjectCall(u: string) {
    exists w :: 0 < w <= |u| && IsWord(u[..w]) && IsCallFrom(u[w..])
  }

  /** A non-empty run of `\w` characters. */
  predicate IsWord(s: string) {
    |s| > 0 && forall i :: 0 <= i < |s| ==> IsWordChar(s[i])
  }

  /** `.styleInject(` followed by a quoted argument. */
  predicate IsCallFrom(s: string) {
    StartsWith(s, StyleInjectOpen) && IsQuotedArgument(s[|StyleInjectOpen|..])
  }

  /** Cutting a prefix and then dropping its head is dropping the head and
      then cutting. */
  lemma SliceOfPrefix(t: string, v: nat, n: nat)
    requires v <= n <= |t|
    ensures t[..n][v..] == t[v..][..n - v]
    ensures t[..n][..v] == t[..v]
  {
  }

  /** The longest `stop`-free prefix ends at the first `stop`. */
  lemma RunBeforeAt(s: string, stop: char, k: nat)
    requires k < |s| && s[k] == stop
    requires forall i :: 0 <= i < k ==> s[i] != stop
    ensures RunBefore(s, stop) == k
  {
  }

  /** The longest word run ends at the first non-word character. */
  lemma WordRunAt(s: string, k: nat)
    requires k < |s| && !IsWordChar(s[k])
    requires forall i :: 0 <= i < k ==> IsWordChar(s[i])
    ensures WordRun(s) == k
  {
  }

  /** The lazy body stops at the first closer preceded only by characters
      that are not line terminators. */
  lemma {:induction false} LazyBodyAt(s: string, q: char, k: nat)
    requires ClosesAt(s, k, q)
    requires forall i :: 0 <= i < k ==> InBody(s, i, q)
    ensures LazyBody(s, q) == Some(k)
  {
    if k > 0 {
      assert InBody(s, 0, q);
      assert forall i :: 0 <= i < k ==> ClosesAt(s, i + 1, q) == ClosesAt(s[1..], i, q);
      assert forall i :: 0 <= i < k - 1 ==> InBody(s, i + 1, q) == InBody(s[1..], i, q);
      LazyBodyAt(s[1..], q, k - 1);
    }
  }

  /** What the chunk tail accepts is a whole chunk tail. */
  lemma ChunkTailIsTag(rest: string)
    requires ChunkTail(rest).Some?
    ensures ChunkTail(rest).value <= |rest| && IsChunkTail(rest[..ChunkTail(rest).value])
  {
    var x := RunBefore(rest, '"');
    var after := rest[x + 1..];
    var y := RunBefore(after, '>');
    assert 0 < x < |rest| && 0 < y && StartsWith(after[y..], ScriptClose)
           && ChunkTail(rest).value == x + 1 + y + |ScriptClose|;
    assert forall i :: x < i < x + 1 + y ==> rest[i] != '>' by {
      assert forall i :: x < i < x + 1 + y ==> rest[i] == after[i - x - 1];
    }
    assert StartsWith(rest[x + 1 + y..], ScriptClose) by {
      assert rest[x + 1 + y..] == after[y..];
    }
    TagAt(rest, x, y);
  }

  /** A chunk tail read off positions, the converse of `ChunkTailAt`: the
      first `"` at `j`, then `y` characters free of `>`, then the closing
      tag make a whole chunk tail. */
  lemma TagAt(rest: string, j: nat, y: nat)
    requires 0 < j && 0 < y && j + 1 + y <= |rest|
    requires rest[j] == '"' && forall i :: 0 <= i < j ==> rest[i] != '"'
    requires forall i :: j < i < j + 1 + y ==> rest[i] != '>'
    requires StartsWith(rest[j + 1 + y..], ScriptClose)
    ensures IsChunkTail(rest[..j + 1 + y + |ScriptClose|])
  {
    var c := |ScriptClose|;
    var m := j + 1 + y + c;
    var v := rest[..m];
    SliceOfPrefix(rest, m - c, m);
    assert IsChunkTailQuote(v, j);
  }

  /** The chunk tail read off positions: the first `"` at `j`, then `y`
      characters free of `>`, then the closing tag. */
  lemma ChunkTailAt(rest: string, j: nat, y: nat)
    requires 0 < j && 0 < y && j + 1 + y <= |rest|
    requires rest[j] == '"' && forall i :: 0 <= i < j ==> rest[i] != '"'
    requires forall i :: j < i < j + 1 + y ==> rest[i] != '>'
    requires StartsWith(rest[j + 1 + y..], ScriptClose)
    ensures ChunkTail(rest).Some? && ChunkTail(rest).value == j + 1 + y + |ScriptClose|
  {
    RunBeforeAt(rest, '"', j);
    var after := rest[j + 1..];
    assert after[y..] == rest[j + 1 + y..];
    assert after[y] == '>' by {
      assert after[y] == rest[j + 1 + y..][..|ScriptClose|][0];
    }
    RunBeforeAt(after, '>', y);
  }

  /** A whole chunk tail at the start of `rest` is what the chunk tail
      reports. */
  lemma ChunkTagIsTail(rest: string, m: nat)
    requires m <= |rest| && IsChunkTail(rest[..m])
    ensures ChunkTail(rest).Some? && ChunkTail(rest).value == m
  {
    var c := |ScriptClose|;
    var v := rest[..m];
    var j :| 0 <= j < |v| && IsChunkTailQuote(v, j);
    SliceOfPrefix(rest, m - c, m);
    ChunkTailAt(rest, j, m - c - j - 1);
  }

  /** A prefix of `t` that reaches past `p`, which `t` starts with, starts
      with `p` too. */
  lemma PrefixKeepsOpening(t: string, p: string, n: nat)
    requires StartsWith(t, p) && |p| <= n <= |t|
    ensures StartsWith(t[..n], p) && t[..n][|p|..] == t[|p|..][..n - |p|]
  {
    SliceOfPrefix(t, |p|, n);
  }

  /** What the chunk-script matcher accepts is a whole chunk-loader tag. */
  lemma ChunkMatchIsTag(t: string)
    requires MatchChunkScript(t).Some?
    ensures MatchChunkScript(t).value <= |t| && IsChunkScriptTag(t[..MatchChunkScript(t).value])
  {
    var o := |ChunkTagOpen|;
    ChunkTailIsTag(t[o..]);
    PrefixKeepsOpening(t, ChunkTagOpen, MatchChunkScript(t).value);
  }

  /** A whole chunk-loader tag at the start of `t` is what the matcher
      reports. */
  lemma ChunkTagIsMatched(t: string, n: nat)
    requires n <= |t| && IsChunkScriptTag(t[..n])
    ensures MatchChunkScript(t).Some? && MatchChunkScript(t).value == n
  {
    var o := |ChunkTagOpen|;
    SliceOfPrefix(t, o, n);
    ChunkTagIsTail(t[o..], n - o);
  }

  /** The chunk-script matcher accepts exactly the prefixes that are whole
      chunk-loader tags, and reports their full length. */
  lemma ChunkScriptMatchIff(t: string, n: nat)
    ensures MatchAt(ChunkScript, t) == Some(n) <==> n <= |t| && IsChunkScriptTag(t[..n])
  {
    if MatchChunkScript(t) == Some(n) {
      ChunkMatchIsTag(t);
    }
    if n <= |t| && IsChunkScriptTag(t[..n]) {
      ChunkTagIsMatched(t, n);
    }
  }

  /** The lazy body the style-inject matcher consumes is a quoted argument. */
  lemma QuotedTailIsArgument(v: string)
    requires QuotedTail(v).Some?
    ensures QuotedTail(v).value <= |v| && IsQuotedArgument(v[..QuotedTail(v).value])
  {
    var k := LazyBody(v[1..], v[0]).value;
    var b := v[1..];
    var a := v[..k + 4];
    assert forall i :: 0 <= i <= k ==> ClosesAt(b, i, v[0]) == ClosesAt(a, i + 1, v[0]);
    assert forall i :: 1 <= i <= k ==> InBody(a, i, v[0]) == InBody(b, i - 1, v[0]);
  }

  /** A quoted argument at the start of `v` is what the lazy body finds. */
  lemma ArgumentIsQuotedTail(v: string, m: nat)
    requires m <= |v| && IsQuotedArgument(v[..m])
    ensures QuotedTail(v).Some? && QuotedTail(v).value == m
  {
    var a := v[..m];
    var b := v[1..];
    var k := m - 4;
    assert forall i :: 0 <= i <= k ==> ClosesAt(b, i, v[0]) == ClosesAt(a, i + 1, v[0]);
    assert forall i :: 0 <= i < k ==> InBody(b, i, v[0]) == InBody(a, i + 1, v[0]);
    LazyBodyAt(b, v[0], k);
  }

  /** What the call matcher accepts is `.styleInject(` and a quoted
      argument. */
  lemma CallTailIsCallFrom(s: string)
    requires CallTail(s).Some?
    ensures CallTail(s).value <= |s| && IsCallFrom(s[..CallTail(s).value])
  {
    var o := |StyleInjectOpen|;
    QuotedTailIsArgument(s[o..]);
    PrefixKeepsOpening(s, StyleInjectOpen, CallTail(s).value);
  }

  /** `.styleInject(` and a quoted argument at the start of `s` are what the
      call matcher reports. */
  lemma CallFromIsCallTail(s: string, m: nat)
    requires m <= |s| && IsCallFrom(s[..m])
    ensures CallTail(s).Some? && CallTail(s).value == m
  {
    var o := |StyleInjectOpen|;
    SliceOfPrefix(s, o, m);
    ArgumentIsQuotedTail(s[o..], m - o);
  }

  /** A call begins with the `.` that ends the word before it. */
  lemma CallStartsWithDot(s: string)
    requires IsCallFrom(s)
    ensures |s| > 0 && s[0] == '.'
  {
    assert s[0] == s[..|StyleInjectOpen|][0];
  }

  /** A whole `styleInject` call at the start of `t` is what the style-inject
      matcher reports. */
  lemma StyleInjectCallIsMatched(t: string, n: nat)
    requires n <= |t| && IsStyleInjectCall(t[..n])
    ensures MatchStyleInject(t).Some? && MatchStyleInject(t).value == n
  {
    var u := t[..n];
    var v :| 0 < v <= |u| && IsWord(u[..v]) && IsCallFrom(u[v..]);
    SliceOfPrefix(t, v, n);
    WordBeforeCall(t, v, n);
    CallFromIsCallTail(t[v..], n - v);
    StyleMatchFromParts(t, v, n - v);
  }

  /** The style-inject matcher adds the call tail's length to the word's. */
  lemma StyleMatchFromParts(t: string, v: nat, m: nat)
    requires 0 < v <= |t| && WordRun(t) == v && CallTail(t[v..]).Some? && CallTail(t[v..]).value == m
    ensures MatchStyleInject(t).Some? && MatchStyleInject(t).value == v + m
  {
  }

  /** What the style-inject matcher accepts is a whole `styleInject` call. */
  lemma StyleMatchIsCall(t: string)
    requires MatchStyleInject(t).Some?
    ensures MatchStyleInject(t).value <= |t| && IsStyleInjectCall(t[..MatchStyleInject(t).value])
  {
    var n := MatchStyleInject(t).value;
    var w := WordRun(t);
    CallTailIsCallFrom(t[w..]);
    SliceOfPrefix(t, w, n);
    assert IsWord(t[..n][..w]);
  }

  /** The word of a call is the whole word run at its start: the call's `.`
      ends it. */
  lemma WordBeforeCall(t: string, v: nat, n: nat)
    requires 0 < v <= n <= |t|
    requires IsWord(t[..v]) && IsCallFrom(t[v..][..n - v])
    ensures WordRun(t) == v
  {
    CallStartsWithDot(t[v..][..n - v]);
    assert t[v] == t[v..][..n - v][0];
    assert forall i :: 0 <= i < v ==> t[i] == t[..v][i];
    WordRunAt(t, v);
  }

  /** The style-inject matcher accepts exactly the prefixes that are whole
      `styleInject` calls, and reports their full length. */
  lemma StyleInjectMatchIff(t: string, n: nat)
    ensures MatchAt(StyleInject, t) == Some(n) <==> n <= |t| && IsStyleInjectCall(t[..n])
  {
    if MatchStyleInject(t) == Some(n) {
      StyleMatchIsCall(t);
    }
    if n <= |t| && IsStyleInjectCall(t[..n]) {
      StyleInjectCallIsMatched(t, n);
    }
  }
}
