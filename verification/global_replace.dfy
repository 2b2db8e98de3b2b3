/** `String.prototype.replace` with a global regular expression and a plain
    replacement string. The engine tries the expression at the current
    position; on a match it emits the replacement and resumes after the
    match, otherwise it emits the current character and moves one step on.
    The three expressions of `correctMarkup` never match the empty string,
    so the empty-match step rule of the engine never applies. */
module GlobalReplace {
  import opened Wrappers
  import opened MarkupPatterns

  /** The scanner, as the engine runs it. Every match is longer than its
      replacement, so the output is either the input itself or strictly
      shorter. */
  function Replace(rule: Rule, s: string): (r: string)
    ensures r == s || |r| < |s|
    decreases |s|
  {
    if |s| == 0 then ""
    else
      match MatchAt(rule, s)
      case None =>
        var rest := Replace(rule, s[1..]);
        assert s == [s[0]] + s[1..];
        [s[0]] + rest
      case Some(n) => Replacement(rule) + Replace(rule, s[n..])
  }

  /** One step of a scan: a character stepped over, or a match cut out. */
  datatype Piece = Kept(c: char) | Cut(text: string)

  function PieceText(p: Piece): string {
    match p
    case Kept(c) => [c]
    case Cut(t) => t
  }

  /** The text a sequence of pieces was read from. */
  function Original(ps: seq<Piece>): string {
    if |ps| == 0 then "" else PieceText(ps[0]) + Original(ps[1..])
  }

  /** What the pieces become once every cut is replaced by `rep`. */
  function Output(ps: seq<Piece>, rep: string): string {
    if |ps| == 0 then ""
    else
      match ps[0]
      case Kept(c) => [c] + Output(ps[1..], rep)
      case Cut(_) => rep + Output(ps[1..], rep)
  }

  /** The pieces are the ones a left-to-right scan for `rule` makes: a
      character is kept exactly where no match starts, and a cut is exactly
      the match found where it starts. */
  predicate Scanned(rule: Rule, ps: seq<Piece>) {
    |ps| == 0 ||
    (&& (match ps[0]
         case Kept(_) => MatchAt(rule, Original(ps)).None?
         case Cut(t) => MatchAt(rule, Original(ps)) == Some(|t|))
     && Scanned(rule, ps[1..]))
  }

  /** The scan of `s`: its pieces spell `s` and are the ones the engine cuts. */
  function Tokenize(rule: Rule, s: string): (ps: seq<Piece>)
    ensures Original(ps) == s
    ensures Scanned(rule, ps)
    decreases |s|
  {
    if |s| == 0 then []
    else
      match MatchAt(rule, s)
      case None =>
        var rest := Tokenize(rule, s[1..]);
        KeptStep(rule, s, rest);
        [Kept(s[0])] + rest
      case Some(n) =>
        var rest := Tokenize(rule, s[n..]);
        CutStep(rule, s, n, rest);
        [Cut(s[..n])] + rest
  }

  /** Keeping the first character where no match starts extends a scan of
      the rest to a scan of the whole. */
  lemma KeptStep(rule: Rule, s: string, rest: seq<Piece>)
    requires |s| > 0 && MatchAt(rule, s).None?
    requires Original(rest) == s[1..] && Scanned(rule, rest)
    ensures Original([Kept(s[0])] + rest) == s
    ensures Scanned(rule, [Kept(s[0])] + rest)
  {
    PrependPiece(Kept(s[0]), rest, s);
  }

  /** Cutting the match found at the start extends a scan of the rest to a
      scan of the whole. */
  lemma CutStep(rule: Rule, s: string, n: nat, rest: seq<Piece>)
    requires n <= |s| && MatchAt(rule, s) == Some(n)
    requires Original(rest) == s[n..] && Scanned(rule, rest)
    ensures Original([Cut(s[..n])] + rest) == s
    ensures Scanned(rule, [Cut(s[..n])] + rest)
  {
    PrependPiece(Cut(s[..n]), rest, s);
  }

  /** A piece in front of pieces that spell the rest of `s` spells `s`. */
  lemma PrependPiece(p: Piece, rest: seq<Piece>, s: string)
    requires |PieceText(p)| <= |s| && s[..|PieceText(p)|] == PieceText(p)
    requires Original(rest) == s[|PieceText(p)|..]
    ensures ([p] + rest)[1..] == rest && ([p] + rest)[0] == p
    ensures Original([p] + rest) == s
  {
    assert ([p] + rest)[1..] == rest;
    assert s == PieceText(p) + s[|PieceText(p)|..];
  }

  /** The scanner emits exactly the output of any scan of its input: a
      global replace is determined by the decomposition the engine makes. */
  lemma {:induction false} ReplaceIsScanOutput(rule: Rule, s: string, ps: seq<Piece>)
    requires Original(ps) == s && Scanned(rule, ps)
    ensures Replace(rule, s) == Output(ps, Replacement(rule))
    decreases |ps|
  {
    if |ps| > 0 {
      var t := PieceText(ps[0]);
      assert s[..|t|] == t && s[|t|..] == Original(ps[1..]);
      ReplaceIsScanOutput(rule, s[|t|..], ps[1..]);
    }
  }

  /** Two scans of the same text by the same rule are the same scan. */
  lemma {:induction false} ScanIsUnique(rule: Rule, ps: seq<Piece>, qs: seq<Piece>)
    requires Original(ps) == Original(qs) && Scanned(rule, ps) && Scanned(rule, qs)
    ensures ps == qs
    decreases |ps|
  {
    if |ps| > 0 && |qs| > 0 {
      var s := Original(ps);
      var t := PieceText(ps[0]);
      var u := PieceText(qs[0]);
      assert |t| == |u| && s[..|t|] == t && s[..|u|] == u;
      assert ps[0] == qs[0];
      ScanIsUnique(rule, ps[1..], qs[1..]);
    }
  }

  /** No match starts at position `i` of `s`. */
  predicate NoMatchAt(rule: Rule, s: string, i: nat)
    requires i <= |s|
  {
    MatchAt(rule, s[i..]).None?
  }

  /** Where no match starts, the scanner copies one character and goes on. */
  lemma ReplaceKeepsHead(rule: Rule, s: string)
    requires |s| > 0 && NoMatchAt(rule, s, 0)
    ensures Replace(rule, s) == [s[0]] + Replace(rule, s[1..])
  {
    assert s[0..] == s;
  }

  /** Dropping the first character shifts every inert position down by one. */
  lemma InertShift(rule: Rule, s: string, k: nat)
    requires 0 < k <= |s|
    requires forall i :: 0 <= i < k ==> NoMatchAt(rule, s, i)
    ensures forall i :: 0 <= i < k - 1 ==> NoMatchAt(rule, s[1..], i)
  {
    forall i | 0 <= i < k - 1
      ensures NoMatchAt(rule, s[1..], i)
    {
      assert NoMatchAt(rule, s, i + 1);
      assert s[1..][i..] == s[i + 1..];
    }
  }

  lemma ConsPrefix(s: string, k: nat, x: string)
    requires 0 < k <= |s|
    ensures [s[0]] + (s[1..][..k - 1] + x) == s[..k] + x
    ensures s[1..][k - 1..] == s[k..]
  {
    assert s[..k] == [s[0]] + s[1..][..k - 1];
  }

  /** A prefix of `s` in which no match starts is copied unchanged, and the
      scan resumes right after it. */
  lemma {:induction false} ReplaceSkipsInertPrefix(rule: Rule, s: string, k: nat)
    requires k <= |s|
    requires forall i :: 0 <= i < k ==> NoMatchAt(rule, s, i)
    ensures Replace(rule, s) == s[..k] + Replace(rule, s[k..])
    decreases k
  {
    if k > 0 {
      ReplaceKeepsHead(rule, s);
      InertShift(rule, s, k);
      ReplaceSkipsInertPrefix(rule, s[1..], k - 1);
      ConsPrefix(s, k, Replace(rule, s[k..]));
    }
  }

  /** A match found after an inert prefix is replaced, and the scan resumes
      after the match. */
  lemma ReplaceSplice(rule: Rule, a: string, m: string, b: string)
    requires MatchAt(rule, m + b) == Some(|m|)
    requires forall i :: 0 <= i < |a| ==> NoMatchAt(rule, a + m + b, i)
    ensures Replace(rule, a + m + b) == a + Replacement(rule) + Replace(rule, b)
  {
    var s := a + m + b;
    ReplaceSkipsInertPrefix(rule, s, |a|);
    SpliceParts(a, m, b);
    ReplaceAtMatch(rule, m, b);
    Reassociate(a, Replacement(rule), Replace(rule, b));
  }

  lemma SpliceParts(a: string, m: string, b: string)
    ensures (a + m + b)[..|a|] == a && (a + m + b)[|a|..] == m + b && (m + b)[|m|..] == b
  {
  }

  lemma Reassociate(a: string, r: string, x: string)
    ensures a + (r + x) == a + r + x
  {
  }

  /** A match at the very start is replaced and the scan resumes after it. */
  lemma ReplaceAtMatch(rule: Rule, m: string, b: string)
    requires MatchAt(rule, m + b) == Some(|m|)
    ensures Replace(rule, m + b) == Replacement(rule) + Replace(rule, b)
  {
    assert (m + b)[|m|..] == b;
  }

  /** The text comes back unchanged exactly when no match starts anywhere in
      it: every match is longer than its replacement, so one cut shortens
      the text for good. */
  lemma {:induction false} ReplaceUnchangedIff(rule: Rule, s: string)
    ensures Replace(rule, s) == s <==> forall i :: 0 <= i < |s| ==> NoMatchAt(rule, s, i)
    decreases |s|
  {
    if |s| > 0 {
      ReplaceUnchangedIff(rule, s[1..]);
      NoMatchEverywhereSplit(rule, s);
      if MatchAt(rule, s).None? {
        KeptHead(rule, s);
      } else {
        CutShortens(rule, s);
      }
    }
  }

  /** A text with no match at its head comes back unchanged exactly when its
      tail does. */
  lemma KeptHead(rule: Rule, s: string)
    requires |s| > 0 && MatchAt(rule, s).None?
    ensures Replace(rule, s) == s <==> Replace(rule, s[1..]) == s[1..]
  {
    var rest := Replace(rule, s[1..]);
    assert Replace(rule, s) == [s[0]] + rest;
    assert s == [s[0]] + s[1..];
  }

  /** A text with a match at its head comes back strictly shorter. */
  lemma CutShortens(rule: Rule, s: string)
    requires |s| > 0 && MatchAt(rule, s).Some?
    ensures |Replace(rule, s)| < |s|
  {
    var n := MatchAt(rule, s).value;
    var rest := Replace(rule, s[n..]);
    assert |rest| <= |s| - n;
    assert Replace(rule, s) == Replacement(rule) + rest;
  }

  /** No match starts anywhere in a non-empty text exactly when none starts
      at its head and none starts anywhere in its tail. */
  lemma NoMatchEverywhereSplit(rule: Rule, s: string)
    requires |s| > 0
    ensures (forall i :: 0 <= i < |s| ==> NoMatchAt(rule, s, i))
        <==> MatchAt(rule, s).None? && forall j :: 0 <= j < |s| - 1 ==> NoMatchAt(rule, s[1..], j)
  {
    assert s[0..] == s;
    assert NoMatchAt(rule, s, 0) <==> MatchAt(rule, s).None?;
    forall j | 0 <= j < |s| - 1
      ensures NoMatchAt(rule, s, j + 1) <==> NoMatchAt(rule, s[1..], j)
    {
      assert s[1..][j..] == s[j + 1..];
    }
    if forall j :: 0 <= j < |s| - 1 ==> NoMatchAt(rule, s[1..], j) {
      forall i | 0 < i < |s|
        ensures NoMatchAt(rule, s, i)
      {
        assert NoMatchAt(rule, s, (i - 1) + 1) <==> NoMatchAt(rule, s[1..], i - 1);
      }
    } else {
      var j :| 0 <= j < |s| - 1 && !NoMatchAt(rule, s[1..], j);
      assert !NoMatchAt(rule, s, j + 1);
    }
  }
}
