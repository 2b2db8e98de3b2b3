/** `correctMarkup`: the three global replaces applied to the markup the
    headless browser captured, in source order. */
module Markup {
  import opened Wrappers
  import opened Text
  import opened MarkupPatterns
  import opened GlobalReplace

  /** The shape of the local origin: it starts with `h`, is longer than the
      `./` that replaces it, and holds no `.`. */
  lemma LocalhostPrefixShape(port: nat)
    ensures |LocalhostPrefix(port)| > 18 && LocalhostPrefix(port)[0] == 'h'
    ensures forall i :: 0 <= i < |LocalhostPrefix(port)| ==> LocalhostPrefix(port)[i] != '.'
  {
    var d := Decimal(port);
    assert forall i :: 0 <= i < |d| ==> IsDigit(d[i]);
  }

  /** The first pass matches exactly where the local origin starts. */
  lemma AbsoluteUrlMatch(port: nat, s: string, i: nat)
    requires i <= |s|
    ensures NoMatchAt(AbsoluteUrl(port), s, i) <==> !StartsWith(s[i..], LocalhostPrefix(port))
  {
  }

  /** Pass 1, `http://localhost:<port>/` to `./`. No local origin is left
      in the result, and the markup comes back unchanged exactly when it
      held none; otherwise it comes back shorter. */
  function AbsoluteToRelative(markup: string, port: nat): (r: string)
    ensures !Occurs(r, LocalhostPrefix(port))
    ensures r == markup <==> !Occurs(markup, LocalhostPrefix(port))
    ensures r != markup ==> |r| < |markup|
  {
    NoLocalhostLeft(markup, port);
    ReplaceUnchangedIff(AbsoluteUrl(port), markup);
    OccursIffMatch(markup, port);
    Replace(AbsoluteUrl(port), markup)
  }

  /** Running the first pass twice is running it once. */
  lemma AbsoluteToRelativeIdempotent(markup: string, port: nat)
    ensures AbsoluteToRelative(AbsoluteToRelative(markup, port), port) == AbsoluteToRelative(markup, port)
  {
  }

  /** An occurrence of the local origin is a position where the first pass
      matches. */
  lemma OccursIffMatch(s: string, port: nat)
    ensures Occurs(s, LocalhostPrefix(port)) <==> exists i :: 0 <= i < |s| && !NoMatchAt(AbsoluteUrl(port), s, i)
  {
    var p := LocalhostPrefix(port);
    LocalhostPrefixShape(port);
    if Occurs(s, p) {
      var i :| 0 <= i <= |s| - |p| && StartsWith(s[i..], p);
      assert !NoMatchAt(AbsoluteUrl(port), s, i);
    }
    if exists i :: 0 <= i < |s| && !NoMatchAt(AbsoluteUrl(port), s, i) {
      var i :| 0 <= i < |s| && !NoMatchAt(AbsoluteUrl(port), s, i);
      assert StartsWith(s[i..], p);
    }
  }

  /** Prepending a character to a text. */
  lemma ConsStartsWith(c: char, t: string, p: string)
    requires |p| > 0
    ensures StartsWith([c] + t, p) <==> c == p[0] && StartsWith(t, p[1..])
  {
    if StartsWith([c] + t, p) {
      assert ([c] + t)[..|p|][1..] == t[..|p| - 1];
    }
    if c == p[0] && StartsWith(t, p[1..]) {
      assert ([c] + t)[..|p|] == [c] + t[..|p| - 1];
    }
  }

  /** As long as the output shows no `.`, it is a copy of the input: every
      replacement starts with a `.`. */
  lemma {:induction false} KeptPrefix(s: string, port: nat, m: nat)
    ensures var r := Replace(AbsoluteUrl(port), s);
            (m <= |r| && forall i :: 0 <= i < m ==> r[i] != '.') ==> m <= |s| && s[..m] == r[..m]
    decreases |s|
  {
    var r := Replace(AbsoluteUrl(port), s);
    if m > 0 && |s| > 0 {
      match MatchAt(AbsoluteUrl(port), s)
      case None =>
        var r' := Replace(AbsoluteUrl(port), s[1..]);
        assert r == [s[0]] + r';
        KeptPrefix(s[1..], port, m - 1);
        if m <= |r| && forall i :: 0 <= i < m ==> r[i] != '.' {
          DotFreeTail(s[0], r', m);
          ConsPrefixAgrees(s, r', m);
        }
      case Some(_) =>
        assert r[0] == '.';
    }
  }

  /** Dropping the head of a dot-free prefix leaves a dot-free prefix. */
  lemma DotFreeTail(c: char, r': string, m: nat)
    requires 0 < m <= 1 + |r'| && forall i :: 0 <= i < m ==> ([c] + r')[i] != '.'
    ensures forall i :: 0 <= i < m - 1 ==> r'[i] != '.'
  {
    forall i | 0 <= i < m - 1
      ensures r'[i] != '.'
    {
      assert ([c] + r')[i + 1] == r'[i];
    }
  }

  /** Agreement of the tails extends to agreement once the same head is put
      back on both sides. */
  lemma ConsPrefixAgrees(s: string, r': string, m: nat)
    requires 0 < m <= |s| && m - 1 <= |r'| && s[1..][..m - 1] == r'[..m - 1]
    ensures s[..m] == ([s[0]] + r')[..m]
  {
    assert s[..m] == [s[0]] + s[1..][..m - 1];
    assert ([s[0]] + r')[..m] == [s[0]] + r'[..m - 1];
  }

  /** The output of the first pass never starts with the local origin. */
  lemma OutputHeadIsNotOrigin(s: string, port: nat)
    ensures !StartsWith(Replace(AbsoluteUrl(port), s), LocalhostPrefix(port))
  {
    var p := LocalhostPrefix(port);
    var r := Replace(AbsoluteUrl(port), s);
    LocalhostPrefixShape(port);
    if |s| > 0 {
      match MatchAt(AbsoluteUrl(port), s)
      case None =>
        var r' := Replace(AbsoluteUrl(port), s[1..]);
        assert r == [s[0]] + r';
        assert s == [s[0]] + s[1..];
        ConsStartsWith(s[0], r', p);
        ConsStartsWith(s[0], s[1..], p);
        KeptPrefix(s[1..], port, |p| - 1);
        assert StartsWith(r', p[1..]) ==> forall i :: 0 <= i < |p| - 1 ==> r'[i] == p[1..][i];
      case Some(_) =>
        assert r[0] == '.';
    }
  }

  /** The first pass leaves no local origin behind: an occurrence in the
      output would have to lie within copied text, where the scan would have
      matched it, or run into a `./`, which the origin cannot contain. */
  lemma {:induction false} NoLocalhostLeft(s: string, port: nat)
    ensures forall k :: 0 <= k <= |Replace(AbsoluteUrl(port), s)| ==>
              !StartsWith(Replace(AbsoluteUrl(port), s)[k..], LocalhostPrefix(port))
    decreases |s|
  {
    var p := LocalhostPrefix(port);
    var r := Replace(AbsoluteUrl(port), s);
    LocalhostPrefixShape(port);
    OutputHeadIsNotOrigin(s, port);
    if |s| > 0 {
      var n := match MatchAt(AbsoluteUrl(port), s) case None => 1 case Some(n) => n;
      var rep := match MatchAt(AbsoluteUrl(port), s) case None => [s[0]] case Some(_) => "./";
      var r' := Replace(AbsoluteUrl(port), s[n..]);
      assert r == rep + r';
      NoLocalhostLeft(s[n..], port);
      forall k | 0 < k <= |r|
        ensures !StartsWith(r[k..], p)
      {
        if k >= |rep| {
          assert r[k..] == r'[k - |rep|..];
        } else {
          assert r[k..][0] == '/';
        }
      }
      assert r[0..] == r;
    }
  }

  /** A local origin preceded by text in which no origin starts is rewritten
      in place; the text around it keeps its order. */
  lemma LocalhostUrlRewritten(a: string, b: string, port: nat)
    requires forall i :: 0 <= i < |a| ==> !StartsWith((a + LocalhostPrefix(port) + b)[i..], LocalhostPrefix(port))
    ensures AbsoluteToRelative(a + LocalhostPrefix(port) + b, port) == a + "./" + AbsoluteToRelative(b, port)
  {
    var p := LocalhostPrefix(port);
    assert (p + b)[..|p|] == p;
    forall i | 0 <= i < |a|
      ensures NoMatchAt(AbsoluteUrl(port), a + p + b, i)
    {
      AbsoluteUrlMatch(port, a + p + b, i);
    }
    ReplaceSplice(AbsoluteUrl(port), a, p, b);
  }

  /** The page address the capture step loads. */
  function PrerenderUrl(port: nat): string {
    LocalhostPrefix(port) + "?prerender"
  }

  /** An address on the local server becomes relative: the origin turns into
      `./` and the path after it stays as it was. */
  lemma LocalAddressBecomesRelative(port: nat, path: string)
    requires !Occurs(path, LocalhostPrefix(port))
    ensures AbsoluteToRelative(LocalhostPrefix(port) + path, port) == "./" + path
  {
    assert "" + LocalhostPrefix(port) + path == LocalhostPrefix(port) + path;
    LocalhostUrlRewritten("", path, port);
  }

  /** The captured page's own address turns into `./?prerender`. */
  lemma PrerenderUrlBecomesRelative(port: nat)
    ensures AbsoluteToRelative(PrerenderUrl(port), port) == "./?prerender"
  {
    LocalhostPrefixShape(port);
    LocalAddressBecomesRelative(port, "?prerender");
  }

  /** No part of `s` is a chunk-loader tag. */
  predicate NoChunkScriptTag(s: string) {
    forall i, j :: 0 <= i <= j <= |s| ==> !IsChunkScriptTag(s[i..j])
  }

  /** No part of `s` is a `styleInject` call. */
  predicate NoStyleInjectCall(s: string) {
    forall i, j :: 0 <= i <= j <= |s| ==> !IsStyleInjectCall(s[i..j])
  }

  /** The second pass matches at `i` exactly when a chunk-loader tag starts
      there. */
  lemma ChunkNoMatchIff(s: string, i: nat)
    requires i <= |s|
    ensures NoMatchAt(ChunkScript, s, i) <==> forall j :: i <= j <= |s| ==> !IsChunkScriptTag(s[i..j])
  {
    assert MatchAt(ChunkScript, s[i..]).None? <==> MatchChunkScript(s[i..]).None?;
    if MatchChunkScript(s[i..]).Some? {
      ChunkTagFoundAt(s, i);
    } else {
      ChunkTagAbsentAt(s, i);
    }
  }

  lemma ChunkTagFoundAt(s: string, i: nat)
    requires i <= |s| && MatchChunkScript(s[i..]).Some?
    ensures exists j :: i <= j <= |s| && IsChunkScriptTag(s[i..j])
  {
    var t := s[i..];
    ChunkMatchIsTag(t);
    var n := MatchChunkScript(t).value;
    assert t[..n] == s[i..i + n];
  }

  lemma ChunkTagAbsentAt(s: string, i: nat)
    requires i <= |s| && MatchChunkScript(s[i..]).None?
    ensures forall j :: i <= j <= |s| ==> !IsChunkScriptTag(s[i..j])
  {
    var t := s[i..];
    forall j | i <= j <= |s|
      ensures !IsChunkScriptTag(s[i..j])
    {
      assert t[..j - i] == s[i..j];
      if IsChunkScriptTag(s[i..j]) {
        ChunkTagIsMatched(t, j - i);
      }
    }
  }

  /** The third pass matches at `i` exactly when a `styleInject` call starts
      there. */
  lemma StyleInjectNoMatchIff(s: string, i: nat)
    requires i <= |s|
    ensures NoMatchAt(StyleInject, s, i) <==> forall j :: i <= j <= |s| ==> !IsStyleInjectCall(s[i..j])
  {
    assert MatchAt(StyleInject, s[i..]).None? <==> MatchStyleInject(s[i..]).None?;
    if MatchStyleInject(s[i..]).Some? {
      StyleInjectCallFoundAt(s, i);
    } else {
      StyleInjectCallAbsentAt(s, i);
    }
  }

  lemma StyleInjectCallFoundAt(s: string, i: nat)
    requires i <= |s| && MatchStyleInject(s[i..]).Some?
    ensures exists j :: i <= j <= |s| && IsStyleInjectCall(s[i..j])
  {
    var t := s[i..];
    StyleMatchIsCall(t);
    var n := MatchStyleInject(t).value;
    assert t[..n] == s[i..i + n];
  }

  lemma StyleInjectCallAbsentAt(s: string, i: nat)
    requires i <= |s| && MatchStyleInject(s[i..]).None?
    ensures forall j :: i <= j <= |s| ==> !IsStyleInjectCall(s[i..j])
  {
    var t := s[i..];
    forall j | i <= j <= |s|
      ensures !IsStyleInjectCall(s[i..j])
    {
      assert t[..j - i] == s[i..j];
      if IsStyleInjectCall(s[i..j]) {
        StyleInjectCallIsMatched(t, j - i);
      }
    }
  }

  /** No tag anywhere is no match of the second pass anywhere. */
  lemma NoChunkScriptTagIff(s: string)
    ensures NoChunkScriptTag(s) <==> forall i :: 0 <= i < |s| ==> NoMatchAt(ChunkScript, s, i)
  {
    if NoChunkScriptTag(s) {
      forall i | 0 <= i < |s|
        ensures NoMatchAt(ChunkScript, s, i)
      {
        ChunkNoMatchIff(s, i);
      }
    }
    if forall i :: 0 <= i < |s| ==> NoMatchAt(ChunkScript, s, i) {
      forall i, j | 0 <= i <= j <= |s|
        ensures !IsChunkScriptTag(s[i..j])
      {
        if i < |s| {
          ChunkNoMatchIff(s, i);
        }
      }
    }
  }

  /** No call anywhere is no match of the third pass anywhere. */
  lemma NoStyleInjectCallIff(s: string)
    ensures NoStyleInjectCall(s) <==> forall i :: 0 <= i < |s| ==> NoMatchAt(StyleInject, s, i)
  {
    if NoStyleInjectCall(s) {
      forall i | 0 <= i < |s|
        ensures NoMatchAt(StyleInject, s, i)
      {
        StyleInjectNoMatchIff(s, i);
      }
    }
    if forall i :: 0 <= i < |s| ==> NoMatchAt(StyleInject, s, i) {
      forall i, j | 0 <= i <= j <= |s|
        ensures !IsStyleInjectCall(s[i..j])
      {
        if i < |s| {
          StyleInjectNoMatchIff(s, i);
        }
      }
    }
  }

  /** Pass 2: chunk-loader tags the client added at run time are deleted.
      The markup comes back unchanged exactly when it holds no such tag, and
      otherwise shorter. */
  function RemoveChunkScripts(markup: string): (r: string)
    ensures r == markup <==> NoChunkScriptTag(markup)
    ensures r != markup ==> |r| < |markup|
  {
    ReplaceUnchangedIff(ChunkScript, markup);
    NoChunkScriptTagIff(markup);
    Replace(ChunkScript, markup)
  }

  /** Pass 3: `styleInject` calls are deleted. The markup comes back
      unchanged exactly when it holds no such call, and otherwise shorter. */
  function RemoveStyleInjects(markup: string): (r: string)
    ensures r == markup <==> NoStyleInjectCall(markup)
    ensures r != markup ==> |r| < |markup|
  {
    ReplaceUnchangedIff(StyleInject, markup);
    NoStyleInjectCallIff(markup);
    Replace(StyleInject, markup)
  }

  /** An empty replacement leaves nothing between its neighbours. */
  lemma DeletedBetween(a: string, x: string)
    ensures a + "" + x == a + x
  {
  }

  /** A chunk-loader tag after text in which no tag starts is deleted, and
      the scan goes on after it. */
  lemma ChunkScriptTagRemoved(a: string, tag: string, b: string)
    requires IsChunkScriptTag(tag)
    requires forall i, j :: 0 <= i < |a| && i <= j <= |a + tag + b| ==> !IsChunkScriptTag((a + tag + b)[i..j])
    ensures RemoveChunkScripts(a + tag + b) == a + RemoveChunkScripts(b)
  {
    assert MatchAt(ChunkScript, tag + b) == Some(|tag|) by {
      assert (tag + b)[..|tag|] == tag;
      ChunkScriptMatchIff(tag + b, |tag|);
    }
    assert forall i :: 0 <= i < |a| ==> NoMatchAt(ChunkScript, a + tag + b, i) by {
      forall i | 0 <= i < |a|
        ensures NoMatchAt(ChunkScript, a + tag + b, i)
      {
        ChunkNoMatchIff(a + tag + b, i);
      }
    }
    ReplaceSplice(ChunkScript, a, tag, b);
    DeletedBetween(a, Replace(ChunkScript, b));
  }

  /** A `styleInject` call after text in which no call starts is deleted,
      and the scan goes on after it. */
  lemma StyleInjectCallRemoved(a: string, call: string, b: string)
    requires IsStyleInjectCall(call)
    requires forall i, j :: 0 <= i < |a| && i <= j <= |a + call + b| ==> !IsStyleInjectCall((a + call + b)[i..j])
    ensures RemoveStyleInjects(a + call + b) == a + RemoveStyleInjects(b)
  {
    assert MatchAt(StyleInject, call + b) == Some(|call|) by {
      assert (call + b)[..|call|] == call;
      StyleInjectMatchIff(call + b, |call|);
    }
    assert forall i :: 0 <= i < |a| ==> NoMatchAt(StyleInject, a + call + b, i) by {
      forall i | 0 <= i < |a|
        ensures NoMatchAt(StyleInject, a + call + b, i)
      {
        StyleInjectNoMatchIff(a + call + b, i);
      }
    }
    ReplaceSplice(StyleInject, a, call, b);
    DeletedBetween(a, Replace(StyleInject, b));
  }

  /** `correctMarkup`: the three passes in source order. The corrected
      markup is the markup itself exactly when the markup holds no local
      origin, no chunk-loader tag and no `styleInject` call, since every pass
      that rewrites anything shortens the text for good. */
  function CorrectMarkup(markup: string, port: nat): (r: string)
    ensures r == markup <==>
              && !Occurs(markup, LocalhostPrefix(port))
              && NoChunkScriptTag(markup)
              && NoStyleInjectCall(markup)
    ensures r != markup ==> |r| < |markup|
  {
    RemoveStyleInjects(RemoveChunkScripts(AbsoluteToRelative(markup, port)))
  }

  /** A chunk-loader tag built from its parts. */
  lemma ChunkTagFromParts(x: string, y: string)
    requires |x| > 0 && '"' !in x && |y| > 0 && '>' !in y
    ensures IsChunkScriptTag(ChunkTagOpen + x + "\"" + y + ScriptClose)
  {
    var u := ChunkTagOpen + x + "\"" + y + ScriptClose;
    ChunkTailFromParts(x, y);
    assert u[|ChunkTagOpen|..] == x + "\"" + y + ScriptClose;
  }

  /** The part of a chunk-loader tag after `chunk-`, built from its parts. */
  lemma ChunkTailFromParts(x: string, y: string)
    requires |x| > 0 && '"' !in x && |y| > 0 && '>' !in y
    ensures IsChunkTail(x + "\"" + y + ScriptClose)
  {
    var v := x + "\"" + y + ScriptClose;
    assert forall i :: 0 <= i < |x| ==> v[i] == x[i];
    assert forall i :: |x| < i < |v| - |ScriptClose| ==> v[i] == y[i - |x| - 1];
    assert IsChunkTailQuote(v, |x|);
    assert v[|v| - |ScriptClose|..] == ScriptClose;
  }

  /** A chunk-loader tag alone is deleted entirely by the second pass. */
  lemma LoneChunkTagRemoved(tag: string)
    requires IsChunkScriptTag(tag)
    ensures RemoveChunkScripts(tag) == ""
  {
    assert "" + tag + "" == tag;
    ChunkScriptTagRemoved("", tag, "");
    assert RemoveChunkScripts("") == "";
  }

  /** The opening of a script tag up to its `src` value. */
  const ScriptSrcOpen: string := "<script src=\""

  /** No `h`-initial text starts inside the opening of a script tag. */
  lemma NoOriginInScriptOpen(p: string, b: string)
    requires |p| > 0 && p[0] == 'h'
    ensures forall i :: 0 <= i < |ScriptSrcOpen| ==> !StartsWith((ScriptSrcOpen + p + b)[i..], p)
  {
    var a := ScriptSrcOpen;
    assert 'h' !in a;
    forall i | 0 <= i < |a|
      ensures !StartsWith((a + p + b)[i..], p)
    {
      assert (a + p + b)[i..][0] == a[i];
    }
  }

  /** The relative tag opening is the script opening followed by `./chunk-`. */
  lemma RelativeTagSpelling(x: string, y: string)
    ensures ScriptSrcOpen + "./" + ("chunk-" + x + "\"" + y + ScriptClose) == ChunkTagOpen + x + "\"" + y + ScriptClose
  {
    assert ScriptSrcOpen + "./" + "chunk-" == ChunkTagOpen;
  }

  /** The first pass turns a chunk-loader tag with an absolute local `src`
      into the relative form the second pass looks for. */
  lemma LocalChunkTagRewritten(port: nat, x: string, y: string)
    requires !Occurs("chunk-" + x + "\"" + y + ScriptClose, LocalhostPrefix(port))
    ensures AbsoluteToRelative(ScriptSrcOpen + LocalhostPrefix(port) + ("chunk-" + x + "\"" + y + ScriptClose), port)
            == ChunkTagOpen + x + "\"" + y + ScriptClose
  {
    var p := LocalhostPrefix(port);
    var b := "chunk-" + x + "\"" + y + ScriptClose;
    LocalhostPrefixShape(port);
    NoOriginInScriptOpen(p, b);
    LocalhostUrlRewritten(ScriptSrcOpen, b, port);
    RelativeTagSpelling(x, y);
  }

  /** A markup that is one chunk-loader tag whose `src` is absolute on the
      local server, with no origin in the rest of the tag, is rewritten by
      the first pass into a tag the second pass deletes, so `correctMarkup`
      leaves nothing. Inside longer markup this need not hold: an unfinished
      tag before it can swallow part of it. */
  lemma LocalChunkTagRemoved(port: nat, x: string, y: string)
    requires |x| > 0 && '"' !in x && |y| > 0 && '>' !in y
    requires !Occurs("chunk-" + x + "\"" + y + ScriptClose, LocalhostPrefix(port))
    ensures CorrectMarkup(ScriptSrcOpen + LocalhostPrefix(port) + ("chunk-" + x + "\"" + y + ScriptClose), port) == ""
  {
    var tag := ChunkTagOpen + x + "\"" + y + ScriptClose;
    LocalChunkTagRewritten(port, x, y);
    ChunkTagFromParts(x, y);
    LoneChunkTagRemoved(tag);
    assert RemoveStyleInjects("") == "";
  }

}
