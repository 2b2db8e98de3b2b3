/** What the single left-to-right scans of `correctMarkup` leave behind.
    The first pass can be repeated without effect: it leaves no local origin
    behind. The two deleting passes cannot: deleting a match can join the
    text on its two sides into a new match, which the scan has already
    passed. For the same reason the three passes together can leave a local
    origin behind: deleting a tag can join the two halves of an origin that
    the first pass had nothing to match in. */
module Splicing {
  import opened Wrappers
  import opened Text
  import opened MarkupPatterns
  import opened GlobalReplace
  import opened Markup

  /** A match of the chunk pattern starts with `<s`. */
  lemma ChunkMatchStartsWithTagOpen(t: string)
    ensures MatchChunkScript(t).Some? ==> |ChunkTagOpen| <= |t| && t[0] == '<' && t[1] == 's'
  {
    if MatchChunkScript(t).Some? {
      assert t[..|ChunkTagOpen|][0] == '<' && t[..|ChunkTagOpen|][1] == 's';
    }
  }

  /** Text free of `<`, followed by fewer characters than a tag opening
      has, holds no chunk-loader tag. */
  lemma ChunkInertTail(u: string, v: string)
    requires '<' !in u && |v| < |ChunkTagOpen|
    ensures RemoveChunkScripts(u + v) == u + v
  {
    var s := u + v;
    forall i | 0 <= i < |s|
      ensures NoMatchAt(ChunkScript, s, i)
    {
      ChunkMatchStartsWithTagOpen(s[i..]);
      assert i < |u| ==> s[i..][0] == u[i];
    }
    ReplaceUnchangedIff(ChunkScript, s);
  }

  /** A tag without its leading `<` holds no chunk-loader tag, as long as
      its two free parts hold no `<`. */
  lemma HeadlessTagIsInert(x: string, y: string)
    requires '<' !in x && '<' !in y
    ensures var tag := ChunkTagOpen + x + "\"" + y + ScriptClose;
            RemoveChunkScripts(tag[1..]) == tag[1..]
  {
    var tag := ChunkTagOpen + x + "\"" + y + ScriptClose;
    var u := ChunkTagOpen[1..] + x + "\"" + y;
    assert '<' !in ChunkTagOpen[1..];
    assert tag[1..] == u + ScriptClose;
    ChunkInertTail(u, ScriptClose);
  }

  /** The second pass is not idempotent: a `<` in front of a tag, and the
      rest of a second tag after it, form a new tag once the first is
      deleted. */
  lemma ChunkScriptPassNotIdempotent(x1: string, y1: string, x2: string, y2: string)
    requires |x1| > 0 && '"' !in x1 && |y1| > 0 && '>' !in y1
    requires |x2| > 0 && '"' !in x2 && |y2| > 0 && '>' !in y2 && '<' !in x2 && '<' !in y2
    ensures var second := ChunkTagOpen + x2 + "\"" + y2 + ScriptClose;
            var s := "<" + (ChunkTagOpen + x1 + "\"" + y1 + ScriptClose) + second[1..];
            && RemoveChunkScripts(s) == second
            && RemoveChunkScripts(RemoveChunkScripts(s)) == ""
  {
    var first := ChunkTagOpen + x1 + "\"" + y1 + ScriptClose;
    var second := ChunkTagOpen + x2 + "\"" + y2 + ScriptClose;
    var b := second[1..];
    var s := "<" + first + b;
    ChunkTagFromParts(x1, y1);
    ChunkTagFromParts(x2, y2);
    assert NoMatchAt(ChunkScript, s, 0) by {
      assert s[0..][1] == first[0] == '<';
      ChunkMatchStartsWithTagOpen(s[0..]);
    }
    assert MatchAt(ChunkScript, first + b) == Some(|first|) by {
      assert (first + b)[..|first|] == first;
      ChunkScriptMatchIff(first + b, |first|);
    }
    ReplaceSplice(ChunkScript, "<", first, b);
    DeletedBetween("<", Replace(ChunkScript, b));
    HeadlessTagIsInert(x2, y2);
    assert "<" + b == second by {
      assert second[0] == '<';
    }
    LoneChunkTagRemoved(second);
  }

  /** A `styleInject` match needs a `.` right after its word. */
  lemma StyleMatchNeedsDot(t: string)
    ensures MatchStyleInject(t).Some? ==> WordRun(t) < |t| && t[WordRun(t)] == '.'
  {
    if MatchStyleInject(t).Some? {
      var w := WordRun(t);
      assert t[w..][..|StyleInjectOpen|][0] == '.';
    }
  }

  /** Text without a `.` holds no `styleInject` call. */
  lemma DotlessIsInert(t: string)
    requires '.' !in t
    ensures RemoveStyleInjects(t) == t
  {
    forall i | 0 <= i < |t|
      ensures NoMatchAt(StyleInject, t, i)
    {
      StyleMatchNeedsDot(t[i..]);
    }
    ReplaceUnchangedIff(StyleInject, t);
  }

  /** A word run ended by a `.` that is not followed by `s` starts no call. */
  lemma NoCallAfterWord(t: string, w: nat)
    requires w + 1 < |t| && t[w] == '.' && t[w + 1] != 's'
    requires forall k :: 0 <= k < w ==> IsWordChar(t[k])
    ensures MatchStyleInject(t).None?
  {
    WordRunAt(t, w);
    assert !StartsWith(t[w..], StyleInjectOpen) by {
      assert t[w..][1] == t[w + 1];
    }
  }

  /** No call starts in a word, or at the `.` after it, when the `.` is not
      followed by `s`. */
  lemma NoCallInWordBeforeDot(u: string, rest: string)
    requires IsWord(u) && |rest| >= 2 && rest[0] == '.' && rest[1] != 's'
    ensures forall i :: 0 <= i <= |u| ==> NoMatchAt(StyleInject, u + rest, i)
  {
    var s := u + rest;
    forall i | 0 <= i <= |u|
      ensures NoMatchAt(StyleInject, s, i)
    {
      var t := s[i..];
      var w := |u| - i;
      assert t[w] == '.' && t[w + 1] == rest[1];
      assert forall k :: 0 <= k < w ==> t[k] == u[i + k];
      NoCallAfterWord(t, w);
    }
  }

  /** A word, `.styleInject(` and a quoted argument make a call. */
  lemma StyleInjectCallFromParts(u: string, arg: string)
    requires IsWord(u) && IsQuotedArgument(arg)
    ensures IsStyleInjectCall(u + StyleInjectOpen + arg)
  {
    var c := u + StyleInjectOpen + arg;
    assert c[..|u|] == u;
    assert c[|u|..] == StyleInjectOpen + arg;
    assert (StyleInjectOpen + arg)[|StyleInjectOpen|..] == arg;
  }

  /** A `styleInject` call alone is deleted entirely by the third pass. */
  lemma LoneStyleInjectRemoved(call: string)
    requires IsStyleInjectCall(call)
    ensures RemoveStyleInjects(call) == ""
  {
    assert "" + call + "" == call;
    StyleInjectCallRemoved("", call, "");
    assert RemoveStyleInjects("") == "";
  }

  /** `.styleInject(` without its `.`, followed by a dotless argument, has no
      `.`; putting the `.` back after a word gives the whole call. */
  lemma HeadlessCallRejoined(u: string, arg: string)
    requires '.' !in arg
    ensures '.' !in (StyleInjectOpen + arg)[1..]
    ensures u + "." + (StyleInjectOpen + arg)[1..] == u + StyleInjectOpen + arg
  {
    var tail := StyleInjectOpen[1..];
    assert '.' !in tail;
    assert (StyleInjectOpen + arg)[1..] == tail + arg;
    assert StyleInjectOpen == "." + tail;
  }

  /** The third pass is not idempotent: a word and a `.` in front of a call,
      and the rest of a second call after it, form a new call once the first
      is deleted. */
  lemma StyleInjectPassNotIdempotent(u: string, call: string, arg: string)
    requires IsWord(u) && IsStyleInjectCall(call) && call[0] != 's'
    requires IsQuotedArgument(arg) && '.' !in arg
    ensures var second := u + StyleInjectOpen + arg;
            var s := u + "." + call + (StyleInjectOpen + arg)[1..];
            && RemoveStyleInjects(s) == second
            && RemoveStyleInjects(RemoveStyleInjects(s)) == ""
  {
    var b := (StyleInjectOpen + arg)[1..];
    var a := u + ".";
    var s := a + call + b;
    var second := u + StyleInjectOpen + arg;
    assert call != [];
    assert s == u + ("." + call + b);
    NoCallInWordBeforeDot(u, "." + call + b);
    assert MatchAt(StyleInject, call + b) == Some(|call|) by {
      assert (call + b)[..|call|] == call;
      StyleInjectMatchIff(call + b, |call|);
    }
    ReplaceSplice(StyleInject, a, call, b);
    DeletedBetween(a, Replace(StyleInject, b));
    HeadlessCallRejoined(u, arg);
    DotlessIsInert(b);
    StyleInjectCallFromParts(u, arg);
    LoneStyleInjectRemoved(second);
  }

  /** The local origin starts with `ht` and holds no `<`. */
  lemma OriginShape(port: nat)
    ensures |LocalhostPrefix(port)| > 2
    ensures LocalhostPrefix(port)[0] == 'h' && LocalhostPrefix(port)[1] == 't'
    ensures forall i :: 0 <= i < |LocalhostPrefix(port)| ==> LocalhostPrefix(port)[i] != '<'
  {
    var d := Decimal(port);
    assert forall i :: 0 <= i < |d| ==> IsDigit(d[i]);
  }

  /** An origin can only start where an `h` is followed by a `t`; when no
      such pair starts before `k`, and fewer than an origin's length of
      characters are left from `k` on, the text holds no origin. */
  lemma NoOriginBefore(s: string, k: nat, port: nat)
    requires k < |s| && |s| - |LocalhostPrefix(port)| < k
    requires forall i :: 0 <= i < k ==> !(s[i] == 'h' && s[i + 1] == 't')
    ensures !Occurs(s, LocalhostPrefix(port))
  {
    OriginShape(port);
  }

  /** The opening of a chunk-loader tag is split by the `h` of `chunk`. */
  lemma TagOpenSplitAtH()
    ensures ChunkTagOpen == "<script src=\"./c" + "h" + "unk-"
    ensures 'h' !in "<script src=\"./c" && 'h' !in "unk-" && 'h' !in ScriptClose
  {
  }

  /** In `h`, `t1`, `h`, `t2`, with no `h` inside `t1` or `t2` and neither
      starting with `t`, the only `h`s are followed by something else. */
  lemma HtFreeHead(t1: string, t2: string, b: string)
    requires 'h' !in t1 && 'h' !in t2 && |t1| > 0 && t1[0] != 't' && |t2| > 0 && t2[0] != 't'
    requires |b| > 0
    ensures var s := "h" + t1 + "h" + t2 + b;
            forall i :: 0 <= i < 2 + |t1| + |t2| ==> !(s[i] == 'h' && s[i + 1] == 't')
  {
    var s := "h" + t1 + "h" + t2 + b;
    forall i | 0 <= i < 2 + |t1| + |t2|
      ensures !(s[i] == 'h' && s[i + 1] == 't')
    {
      if i == 0 {
        assert s[1] == t1[0];
      } else if i <= |t1| {
        assert s[i] == t1[i - 1];
      } else if i == |t1| + 1 {
        assert s[i + 1] == t2[0];
      } else {
        assert s[i] == t2[i - |t1| - 2];
      }
    }
  }

  /** The origin's `h`, a chunk-loader tag, and the rest of the origin. */
  function SplitOrigin(port: nat, x: string, y: string): string {
    var p := LocalhostPrefix(port);
    p[..1] + (ChunkTagOpen + x + "\"" + y + ScriptClose) + p[1..]
  }

  /** A split origin holds no origin when the tag holds no `h` outside its
      opening. */
  lemma SplitOriginHasNoOrigin(port: nat, x: string, y: string)
    requires 'h' !in x && 'h' !in y
    ensures !Occurs(SplitOrigin(port, x, y), LocalhostPrefix(port))
  {
    var p := LocalhostPrefix(port);
    var tag := ChunkTagOpen + x + "\"" + y + ScriptClose;
    var s := SplitOrigin(port, x, y);
    OriginShape(port);
    var t1 := "<script src=\"./c";
    var t2 := "unk-" + x + "\"" + y + ScriptClose;
    TagOpenSplitAtH();
    assert tag == t1 + "h" + t2;
    assert p[..1] == "h";
    assert s == "h" + t1 + "h" + t2 + p[1..];
    HtFreeHead(t1, t2, p[1..]);
    NoOriginBefore(s, 1 + |tag|, port);
  }

  /** Deleting the tag of a split origin joins the origin's two halves. */
  lemma SplitOriginRejoined(port: nat, x: string, y: string)
    requires |x| > 0 && '"' !in x && |y| > 0 && '>' !in y
    ensures RemoveChunkScripts(SplitOrigin(port, x, y)) == LocalhostPrefix(port)
  {
    var p := LocalhostPrefix(port);
    var tag := ChunkTagOpen + x + "\"" + y + ScriptClose;
    var s := SplitOrigin(port, x, y);
    OriginShape(port);
    ChunkTagFromParts(x, y);
    forall i, j | 0 <= i < 1 && i <= j <= |s|
      ensures !IsChunkScriptTag(s[i..j])
    {
      assert j > 0 ==> s[i..j][0] == 'h';
    }
    ChunkScriptTagRemoved(p[..1], tag, p[1..]);
    assert '<' !in p[1..];
    ChunkInertTail(p[1..], "");
    assert p[1..] + "" == p[1..];
    assert p[..1] + p[1..] == p;
  }

  /** Markup made of the origin's `h`, a chunk-loader tag and the rest of the
      origin holds no origin, so the first pass leaves it alone. The second
      pass deletes the tag and joins the two halves, so the corrected markup
      is exactly the local origin. */
  lemma CorrectMarkupCanLeaveOrigin(port: nat, x: string, y: string)
    requires |x| > 0 && '"' !in x && |y| > 0 && '>' !in y && 'h' !in x && 'h' !in y
    ensures !Occurs(SplitOrigin(port, x, y), LocalhostPrefix(port))
    ensures CorrectMarkup(SplitOrigin(port, x, y), port) == LocalhostPrefix(port)
  {
    var p := LocalhostPrefix(port);
    SplitOriginHasNoOrigin(port, x, y);
    SplitOriginRejoined(port, x, y);
    LocalhostPrefixShape(port);
    DotlessIsInert(p);
  }
}
