/**
 * The entry reader's text post-processing: lone `\r` rewritten to `\r\n`,
 * splitting and joining on `\r\n`, String.Trim, and the trailing `-- author`
 * line.
 */
module Text {
  import opened Binary

  /** Char.IsWhiteSpace, which String.Trim() strips from both ends. */
  predicate IsWhiteSpace(c: char)
  {
    || c == ' ' || c == '\t' || c == '\n' || c == '\U{000B}' || c == '\U{000C}' || c == '\r'
    || c == '\U{0085}' || c == '\U{00A0}' || c == '\U{1680}'
    || ('\U{2000}' <= c <= '\U{200A}')
    || c == '\U{2028}' || c == '\U{2029}' || c == '\U{202F}' || c == '\U{205F}' || c == '\U{3000}'
  }

  /** Encoding.UTF8.GetString, for text where each byte is one character. */
  function DecodeBytes(bs: seq<byte>): (s: string)
    ensures |s| == |bs|
    ensures forall i :: 0 <= i < |bs| ==> s[i] as int == bs[i] as int
  {
    seq(|bs|, i requires 0 <= i < |bs| => bs[i] as int as char)
  }

  // ---------------------------------------------------------------- line endings

  /** Every `\r` is immediately followed by `\n`. */
  predicate NoLoneCR(s: string)
  {
    forall i :: 0 <= i < |s| && s[i] == '\r' ==> i + 1 < |s| && s[i + 1] == '\n'
  }

  /** Regex.Replace(text, "\r(?!\n)", "\r\n"). */
  function NormalizeLoneCR(s: string): string
  {
    if s == [] then []
    else if s[0] == '\r' && (|s| == 1 || s[1] != '\n') then "\r\n" + NormalizeLoneCR(s[1..])
    else [s[0]] + NormalizeLoneCR(s[1..])
  }

  lemma {:induction false} NormalizeHead(s: string)
    requires s != [] && s[0] != '\r'
    ensures NormalizeLoneCR(s) != [] && NormalizeLoneCR(s)[0] == s[0]
  {
  }

  /** After the rewrite no `\r` stands alone. */
  lemma {:induction false} NormalizeNoLoneCR(s: string)
    ensures NoLoneCR(NormalizeLoneCR(s))
  {
    if s != [] {
      NormalizeNoLoneCR(s[1..]);
      var t := NormalizeLoneCR(s[1..]);
      if s[0] == '\r' && (|s| == 1 || s[1] != '\n') {
        assert NormalizeLoneCR(s) == ['\r', '\n'] + t;
      } else {
        var r := NormalizeLoneCR(s);
        assert r == [s[0]] + t;
        if s[0] == '\r' {
          NormalizeHead(s[1..]);
        }
        forall i | 0 <= i < |r| && r[i] == '\r' ensures i + 1 < |r| && r[i + 1] == '\n'
        {
          if i > 0 { assert r[i] == t[i - 1]; }
        }
      }
    }
  }

  /** Text without lone `\r` is left as it is. */
  lemma {:induction false} NormalizeFixpoint(s: string)
    requires NoLoneCR(s)
    ensures NormalizeLoneCR(s) == s
  {
    if s != [] {
      assert NoLoneCR(s[1..]) by {
        forall i | 0 <= i < |s[1..]| && s[1..][i] == '\r' ensures i + 1 < |s[1..]| && s[1..][i + 1] == '\n'
        {
          assert s[i + 1] == '\r';
        }
      }
      NormalizeFixpoint(s[1..]);
    }
  }

  lemma NormalizeIdempotent(s: string)
    ensures NormalizeLoneCR(NormalizeLoneCR(s)) == NormalizeLoneCR(s)
  {
    NormalizeNoLoneCR(s);
    NormalizeFixpoint(NormalizeLoneCR(s));
  }

  /** The text with every `\n` taken out. */
  function WithoutLF(s: string): (r: string)
    ensures '\n' !in r
  {
    if s == [] then [] else (if s[0] == '\n' then [] else [s[0]]) + WithoutLF(s[1..])
  }

  lemma WithoutLFCons(c: char, t: string)
    ensures WithoutLF([c] + t) == (if c == '\n' then [] else [c]) + WithoutLF(t)
  {
    assert ([c] + t)[1..] == t;
  }

  lemma WithoutLFOfCRLF(t: string)
    ensures WithoutLF("\r\n" + t) == "\r" + WithoutLF(t)
  {
    WithoutLFCons('\n', t);
    WithoutLFCons('\r', "\n" + t);
    assert "\r\n" + t == ['\r'] + ("\n" + t);
  }

  /** The rewrite only inserts `\n`: every other character stays, in order. */
  lemma {:induction false} NormalizeOnlyInsertsLF(s: string)
    ensures WithoutLF(NormalizeLoneCR(s)) == WithoutLF(s)
  {
    if s != [] {
      NormalizeOnlyInsertsLF(s[1..]);
      WithoutLFCons(s[0], s[1..]);
      assert s == [s[0]] + s[1..];
      var t := NormalizeLoneCR(s[1..]);
      if s[0] == '\r' && (|s| == 1 || s[1] != '\n') {
        WithoutLFOfCRLF(t);
      } else {
        WithoutLFCons(s[0], t);
      }
    }
  }

  // ---------------------------------------------------------------- lines

  predicate NoCRLF(s: string)
  {
    forall i :: 0 <= i < |s| - 1 ==> !(s[i] == '\r' && s[i + 1] == '\n')
  }

  /** text.Split(new string[] { "\r\n" }, StringSplitOptions.None). */
  function SplitLines(s: string): (r: seq<string>)
    decreases |s|
    ensures |r| >= 1 && r[0] <= s
  {
    if |s| < 2 then [s]
    else if s[0] == '\r' && s[1] == '\n' then [""] + SplitLines(s[2..])
    else
      var t := SplitLines(s[1..]);
      [[s[0]] + t[0]] + t[1..]
  }

  /** string.Join("\r\n", lines). */
  function JoinLines(lines: seq<string>): string
  {
    if lines == [] then ""
    else if |lines| == 1 then lines[0]
    else lines[0] + "\r\n" + JoinLines(lines[1..])
  }

  lemma {:induction false} JoinConsHead(c: char, t: seq<string>)
    requires |t| >= 1
    ensures JoinLines([[c] + t[0]] + t[1..]) == [c] + JoinLines(t)
  {
    var u := [[c] + t[0]] + t[1..];
    if |t| > 1 {
      assert u[1..] == t[1..];
    }
  }

  /** Joining the pieces back with `\r\n` gives the text that was split. */
  lemma {:induction false} JoinSplit(s: string)
    decreases |s|
    ensures JoinLines(SplitLines(s)) == s
  {
    if |s| >= 2 {
      if s[0] == '\r' && s[1] == '\n' {
        JoinSplit(s[2..]);
        var t := SplitLines(s[2..]);
        assert ([""] + t)[1..] == t;
      } else {
        JoinSplit(s[1..]);
        JoinConsHead(s[0], SplitLines(s[1..]));
      }
    }
  }

  /** No piece contains `\r\n`, so together with JoinSplit the split is the only one possible. */
  lemma {:induction false} SplitPiecesHaveNoCRLF(s: string)
    decreases |s|
    ensures forall k :: 0 <= k < |SplitLines(s)| ==> NoCRLF(SplitLines(s)[k])
  {
    var r := SplitLines(s);
    if |s| >= 2 {
      if s[0] == '\r' && s[1] == '\n' {
        SplitPiecesHaveNoCRLF(s[2..]);
        forall k | 0 <= k < |r| ensures NoCRLF(r[k])
        {
          if k > 0 { assert r[k] == SplitLines(s[2..])[k - 1]; }
        }
      } else {
        SplitPiecesHaveNoCRLF(s[1..]);
        var t := SplitLines(s[1..]);
        forall k | 0 <= k < |r| ensures NoCRLF(r[k])
        {
          if k > 0 {
            assert r[k] == t[k];
          } else {
            var p := [s[0]] + t[0];
            assert r[0] == p;
            forall i | 0 <= i < |p| - 1 ensures !(p[i] == '\r' && p[i + 1] == '\n')
            {
              if i == 0 {
                assert t[0] <= s[1..];
                assert p[1] == t[0][0] == s[1];
              } else {
                assert p[i] == t[0][i - 1] && p[i + 1] == t[0][i];
              }
            }
          }
        }
      }
    }
  }

  /** Splitting text without lone `\r` on `\r\n` leaves no `\r` in any piece. */
  lemma {:induction false} SplitPiecesHaveNoCR(s: string)
    requires NoLoneCR(s)
    decreases |s|
    ensures forall k :: 0 <= k < |SplitLines(s)| ==> '\r' !in SplitLines(s)[k]
  {
    var r := SplitLines(s);
    if |s| < 2 {
      if |s| == 1 { assert s[0] != '\r'; }
    } else {
      var d := if s[0] == '\r' && s[1] == '\n' then 2 else 1;
      var rest := s[d..];
      assert NoLoneCR(rest) by {
        forall i | 0 <= i < |rest| && rest[i] == '\r' ensures i + 1 < |rest| && rest[i + 1] == '\n'
        {
          assert s[i + d] == '\r';
        }
      }
      SplitPiecesHaveNoCR(rest);
      var t := SplitLines(rest);
      if d == 2 {
        forall k | 0 <= k < |r| ensures '\r' !in r[k]
        {
          if k > 0 { assert r[k] == t[k - 1]; }
        }
      } else {
        assert s[0] != '\r';
        forall k | 0 <= k < |r| ensures '\r' !in r[k]
        {
          if k > 0 { assert r[k] == t[k]; } else { assert r[0] == [s[0]] + t[0]; }
        }
      }
    }
  }

  /** Joining lines that hold no `\r` with `\r\n` leaves no lone `\r`. */
  lemma {:induction false} JoinNoLoneCR(lines: seq<string>)
    requires forall k :: 0 <= k < |lines| ==> '\r' !in lines[k]
    ensures NoLoneCR(JoinLines(lines))
  {
    if |lines| > 1 {
      JoinNoLoneCR(lines[1..]);
      var j := JoinLines(lines);
      var head, tail := lines[0], JoinLines(lines[1..]);
      assert j == head + "\r\n" + tail;
      forall i | 0 <= i < |j| ensures j[i] == '\r' ==> i + 1 < |j| && j[i + 1] == '\n'
      {
        if i < |head| {
          assert j[i] == head[i];
        } else if i > |head| + 1 {
          assert j[i] == tail[i - |head| - 2];
          assert i + 1 < |j| ==> j[i + 1] == tail[i - |head| - 1];
        }
      }
    } else if |lines| == 1 {
      assert '\r' !in lines[0];
    }
  }

  /** Joining a split list in two parts puts `\r\n` between them. */
  lemma {:induction false} JoinAppend(a: seq<string>, b: seq<string>)
    requires a != [] && b != []
    ensures JoinLines(a + b) == JoinLines(a) + "\r\n" + JoinLines(b)
  {
    if |a| == 1 {
      assert (a + b)[1..] == b;
    } else {
      assert (a + b)[1..] == a[1..] + b;
      JoinAppend(a[1..], b);
    }
  }

  // ---------------------------------------------------------------- trimming

  /** The index of the first character at or after i that is not white space, or |s|. */
  function FirstNonWhite(s: string, i: nat): (j: nat)
    requires i <= |s|
    ensures i <= j <= |s| && (j == |s| || !IsWhiteSpace(s[j]))
    ensures forall k :: i <= k < j ==> IsWhiteSpace(s[k])
    decreases |s| - i
  {
    if i < |s| && IsWhiteSpace(s[i]) then FirstNonWhite(s, i + 1) else i
  }

  /** The end of s[lo..j] once its trailing white space is dropped. */
  function EndOfNonWhite(s: string, lo: nat, j: nat): (e: nat)
    requires lo <= j <= |s|
    ensures lo <= e <= j && (e == lo || !IsWhiteSpace(s[e - 1]))
    ensures forall k :: e <= k < j ==> IsWhiteSpace(s[k])
  {
    if lo < j && IsWhiteSpace(s[j - 1]) then EndOfNonWhite(s, lo, j - 1) else j
  }

  /**
   * String.Trim(): a slice of s that neither starts nor ends with white
   * space, and everything dropped before and after it is white space.
   */
  function Trim(s: string): (r: string)
    ensures var i := FirstNonWhite(s, 0);
            && i + |r| <= |s| && r == s[i..i + |r|]
            && (r == [] || (!IsWhiteSpace(r[0]) && !IsWhiteSpace(r[|r| - 1])))
            && (forall k :: 0 <= k < i ==> IsWhiteSpace(s[k]))
            && (forall k :: i + |r| <= k < |s| ==> IsWhiteSpace(s[k]))
  {
    var i := FirstNonWhite(s, 0);
    s[i..EndOfNonWhite(s, i, |s|)]
  }

  // ---------------------------------------------------------------- attribution

  /** A line that is nothing but white space. */
  predicate IsBlank(line: string)
  {
    forall i :: 0 <= i < |line| ==> IsWhiteSpace(line[i])
  }

  /** IsBlank is the reader's test `line.Trim() == ""`. */
  lemma BlankIffTrimsToEmpty(line: string)
    ensures IsBlank(line) <==> Trim(line) == []
  {
  }

  /** line.StartsWith("--"), compared character by character. */
  predicate StartsWithMarker(line: string) { |line| >= 2 && line[..2] == "--" }

  /** The last line before index n that is not blank, or -1 when every one is. */
  function LastNonBlank(lines: seq<string>, n: int): (j: int)
    requires 0 <= n <= |lines|
    ensures -1 <= j < n
    ensures j >= 0 ==> !IsBlank(lines[j])
    ensures forall k :: j < k < n ==> IsBlank(lines[k])
  {
    if n == 0 then -1 else if !IsBlank(lines[n - 1]) then n - 1 else LastNonBlank(lines, n - 1)
  }

  /**
   * The lines the reader keeps above an attribution: a non-empty leading run
   * of the lines that ends with a line that is not blank, after which, up to
   * the attribution line, every line is blank.
   */
  function KeptLines(lines: seq<string>): (kept: seq<string>)
    requires |lines| >= 1 && LastNonBlank(lines, |lines| - 1) >= 0
    ensures 1 <= |kept| < |lines| && kept == lines[..|kept|]
    ensures !IsBlank(kept[|kept| - 1])
    ensures forall k :: |kept| <= k < |lines| - 1 ==> IsBlank(lines[k])
  {
    lines[..LastNonBlank(lines, |lines| - 1) + 1]
  }

  /** The do-while at the attribution: drop the last line, then every blank line before it. */
  method DropAttributionLines(lines: seq<string>) returns (kept: seq<string>)
    requires |lines| >= 1 && LastNonBlank(lines, |lines| - 1) >= 0
    ensures kept == KeptLines(lines)
  {
    ghost var j := LastNonBlank(lines, |lines| - 1);
    kept := lines;
    kept := kept[..|kept| - 1];
    while IsBlank(kept[|kept| - 1])
      invariant j < |kept| <= |lines| - 1
      invariant kept == lines[..|kept|]
      decreases |kept|
    {
      kept := kept[..|kept| - 1];
    }
  }

  /** What the reader makes of an entry's text: the text to show and its author. */
  datatype Attributed = Attributed(text: string, author: string)

  /** The entry's lines: the text with lone `\r` rewritten, split on `\r\n`. */
  function Lines(text: string): (lines: seq<string>)
    ensures |lines| >= 1
  {
    SplitLines(NormalizeLoneCR(text))
  }

  /** The last line of the entry, trimmed. */
  function LastLine(text: string): string
  {
    Trim(Lines(text)[|Lines(text)| - 1])
  }

  /**
   * True when the do-while would run off the front of the array: the last line
   * is an attribution and no line before it has anything but white space.
   */
  predicate AttributionOverruns(text: string)
  {
    StartsWithMarker(LastLine(text)) && LastNonBlank(Lines(text), |Lines(text)| - 1) < 0
  }

  /**
   * Fortune.cs lines 160-166 on the normalised text, its lines and its last line trimmed:
   * with a `--` marker, the author is the rest of that line trimmed and the
   * text is the lines before it, less trailing blank lines, joined with `\r\n`.
   */
  function PeelAuthor(normalized: string, lines: seq<string>, last: string): Attributed
    requires |lines| >= 1
    requires StartsWithMarker(last) ==> LastNonBlank(lines, |lines| - 1) >= 0
  {
    if StartsWithMarker(last) then
      Attributed(JoinLines(KeptLines(lines)), Trim(last[2..]))
    else
      Attributed(normalized, "")
  }

  /** Fortune.cs lines 157-166: normalise line endings, then peel off a trailing `-- author` line. */
  function Attribute(text: string): Attributed
    requires !AttributionOverruns(text)
  {
    PeelAuthor(NormalizeLoneCR(text), Lines(text), LastLine(text))
  }

  /** Any leading run of the lines of text without lone `\r`, joined again, has no lone `\r` either. */
  lemma LeadingLinesNoLoneCR(normalized: string, n: nat)
    requires NoLoneCR(normalized) && n <= |SplitLines(normalized)|
    ensures NoLoneCR(JoinLines(SplitLines(normalized)[..n]))
  {
    var lines := SplitLines(normalized);
    SplitPiecesHaveNoCR(normalized);
    var kept := lines[..n];
    assert forall k :: 0 <= k < |kept| ==> kept[k] == lines[k];
    JoinNoLoneCR(kept);
  }

  lemma PeelAuthorNoLoneCR(normalized: string, lines: seq<string>, last: string)
    requires NoLoneCR(normalized) && lines == SplitLines(normalized)
    requires StartsWithMarker(last) ==> LastNonBlank(lines, |lines| - 1) >= 0
    ensures NoLoneCR(PeelAuthor(normalized, lines, last).text)
  {
    if StartsWithMarker(last) {
      LeadingLinesNoLoneCR(normalized, |KeptLines(lines)|);
    }
  }

  /** After the reader's post-processing no `\r` stands alone, whether or not an author was peeled off. */
  lemma AttributeNoLoneCR(text: string)
    requires !AttributionOverruns(text)
    ensures NoLoneCR(Attribute(text).text)
  {
    NormalizeNoLoneCR(text);
    PeelAuthorNoLoneCR(NormalizeLoneCR(text), Lines(text), LastLine(text));
  }

  lemma JoinAt(lines: seq<string>, n: nat)
    requires 1 <= n < |lines|
    ensures JoinLines(lines) == JoinLines(lines[..n]) + "\r\n" + JoinLines(lines[n..])
  {
    assert lines[..n] + lines[n..] == lines;
    JoinAppend(lines[..n], lines[n..]);
  }

  lemma PeelAuthorSplits(normalized: string, lines: seq<string>, last: string)
    requires |lines| >= 1 && JoinLines(lines) == normalized
    requires StartsWithMarker(last) && LastNonBlank(lines, |lines| - 1) >= 0
    ensures var a := PeelAuthor(normalized, lines, last);
            && a.author == Trim(last[2..])
            && exists n :: 1 <= n < |lines|
                 && a.text == JoinLines(lines[..n])
                 && !IsBlank(lines[n - 1])
                 && normalized == a.text + "\r\n" + JoinLines(lines[n..])
                 && (forall k :: n <= k < |lines| - 1 ==> IsBlank(lines[k]))
  {
    var n := |KeptLines(lines)|;
    JoinAt(lines, n);
    var a := PeelAuthor(normalized, lines, last);
    assert a.text == JoinLines(lines[..n]);
    assert normalized == a.text + "\r\n" + JoinLines(lines[n..]);
  }

  /**
   * With a `--` line last, the author is the trimmed rest of that line, and
   * the normalised text is the returned text, `\r\n`, then only blank lines
   * and the marker line; the returned text ends with a line that is not blank.
   * Without one, the author is empty and the text is the normalised text.
   */
  lemma AttributeSplitsOffAuthor(text: string)
    requires !AttributionOverruns(text)
    ensures !StartsWithMarker(LastLine(text)) ==> Attribute(text) == Attributed(NormalizeLoneCR(text), "")
    ensures StartsWithMarker(LastLine(text)) ==>
              var a, lines := Attribute(text), Lines(text);
              && a.author == Trim(LastLine(text)[2..])
              && exists n :: 1 <= n < |lines|
                   && a.text == JoinLines(lines[..n])
                   && !IsBlank(lines[n - 1])
                   && NormalizeLoneCR(text) == a.text + "\r\n" + JoinLines(lines[n..])
                   && (forall k :: n <= k < |lines| - 1 ==> IsBlank(lines[k]))
  {
    if StartsWithMarker(LastLine(text)) {
      JoinSplit(NormalizeLoneCR(text));
      PeelAuthorSplits(NormalizeLoneCR(text), Lines(text), LastLine(text));
    }
  }

  // ---------------------------------------------------------------- entries with and without \r\n

  lemma {:induction false} SplitWithoutCR(s: string)
    requires '\r' !in s
    decreases |s|
    ensures SplitLines(s) == [s]
  {
    if |s| >= 2 {
      SplitWithoutCR(s[1..]);
      assert [s[0]] + s[1..] == s;
    }
  }

  lemma {:induction false} SplitAtFirstCRLF(a: string, b: string)
    requires '\r' !in a
    decreases |a|
    ensures SplitLines(a + "\r\n" + b) == [a] + SplitLines(b)
  {
    var s := a + "\r\n" + b;
    if a == [] {
      assert s[2..] == b;
    } else {
      assert s[1..] == a[1..] + "\r\n" + b;
      SplitAtFirstCRLF(a[1..], b);
      assert [a[0]] + a[1..] == a;
    }
  }

  lemma TwoLinesNoLoneCR(body: string, line: string)
    requires '\r' !in body && '\r' !in line
    ensures NoLoneCR(body + "\r\n" + line)
  {
    var s := body + "\r\n" + line;
    forall i | 0 <= i < |s| && i != |body| ensures s[i] != '\r'
    {
      if i < |body| {
        assert s[i] == body[i];
      } else if i > |body| {
        assert s[i] == (['\n'] + line)[i - |body| - 1];
      }
    }
  }

  lemma WithoutCRNoLoneCR(s: string)
    requires '\r' !in s
    ensures NoLoneCR(s)
  {
  }

  lemma LinesOfTwo(body: string, line: string)
    requires '\r' !in body && '\r' !in line
    ensures Lines(body + "\r\n" + line) == [body, line]
  {
    TwoLinesNoLoneCR(body, line);
    NormalizeFixpoint(body + "\r\n" + line);
    SplitAtFirstCRLF(body, line);
    SplitWithoutCR(line);
  }

  /**
   * An entry of one line of text, `\r\n` and a `--` line: the author is the
   * rest of the marker line, trimmed, and the text is the first line alone.
   */
  lemma AttributionOfTwoLineEntry(body: string, line: string)
    requires '\r' !in body && '\r' !in line && !IsBlank(body) && StartsWithMarker(Trim(line))
    ensures !AttributionOverruns(body + "\r\n" + line)
    ensures Attribute(body + "\r\n" + line) == Attributed(body, Trim(Trim(line)[2..]))
  {
    var text := body + "\r\n" + line;
    LinesOfTwo(body, line);
    var lines := Lines(text);
    assert lines[1] == line && lines[0] == body;
    assert LastNonBlank(lines, 1) == 0;
    assert KeptLines(lines) == [body];
  }

  /**
   * Text without `\r` is a single line, so a `-- author` line after a bare
   * `\n` is never peeled off: the entry is shown whole with no author, or,
   * when it begins with `--`, the reader runs off the front of its lines.
   */
  lemma BareLineFeedsKeepTheAuthorLine(text: string)
    requires '\r' !in text
    ensures StartsWithMarker(Trim(text)) ==> AttributionOverruns(text)
    ensures !StartsWithMarker(Trim(text)) ==> !AttributionOverruns(text) && Attribute(text) == Attributed(text, "")
  {
    WithoutCRNoLoneCR(text);
    NormalizeFixpoint(text);
    SplitWithoutCR(text);
    assert Lines(text) == [text];
  }

  /** Appending a `\r` to the text appends `\r\n` to its rewrite. */
  lemma {:induction false} NormalizeAppendCR(t: string)
    decreases |t|
    ensures NormalizeLoneCR(t + "\r") == NormalizeLoneCR(t) + "\r\n"
  {
    var s := t + "\r";
    if t != [] {
      assert s[1..] == t[1..] + "\r";
      NormalizeAppendCR(t[1..]);
      assert |t| > 1 ==> s[1] == t[1];
    }
  }

  /** At least two lines, the last of them empty. */
  predicate EndsWithEmptyLine(lines: seq<string>)
  {
    |lines| >= 2 && lines[|lines| - 1] == ""
  }

  lemma PrefixKeepsEmptyLast(c: char, t: seq<string>)
    requires EndsWithEmptyLine(t)
    ensures EndsWithEmptyLine([[c] + t[0]] + t[1..]) && EndsWithEmptyLine([""] + t)
  {
  }

  /** Text that ends with `\r\n` splits into at least two pieces, the last one empty. */
  lemma {:induction false} SplitTrailingCRLF(u: string)
    decreases |u|
    ensures EndsWithEmptyLine(SplitLines(u + "\r\n"))
  {
    var s := u + "\r\n";
    if s[0] == '\r' && s[1] == '\n' {
      var rest := s[2..];
      if |u| >= 2 {
        assert rest == u[2..] + "\r\n";
        SplitTrailingCRLF(u[2..]);
        PrefixKeepsEmptyLast(s[0], SplitLines(rest));
      } else {
        assert rest == [];
      }
    } else {
      var rest := s[1..];
      assert rest == u[1..] + "\r\n";
      SplitTrailingCRLF(u[1..]);
      PrefixKeepsEmptyLast(s[0], SplitLines(rest));
    }
  }

  /**
   * Text that ends with a `\r` ends, once rewritten, with an empty line, so
   * no author is ever taken from it, whatever line precedes.
   */
  lemma TrailingCRHidesAuthor(t: string)
    ensures !AttributionOverruns(t + "\r")
    ensures Attribute(t + "\r") == Attributed(NormalizeLoneCR(t + "\r"), "")
  {
    NormalizeAppendCR(t);
    SplitTrailingCRLF(NormalizeLoneCR(t));
    assert LastLine(t + "\r") == Trim("");
  }
}
