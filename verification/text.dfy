/** String helpers standing in for the Python string methods and regular
    expression classes the parsers use.  Text is Latin-1 decoded, so the
    whitespace class below is exactly Python's `str.isspace` on that range. */
module Text {

  /** Python's `str.isspace` / regex `\s` on Latin-1 characters. */
  predicate IsSpace(c: char) {
    var n := c as int;
    (0x09 <= n <= 0x0D) || (0x1C <= n <= 0x20) || n == 0x85 || n == 0xA0
  }

  /** Regex `\d`, restricted to ASCII digits. */
  predicate IsDigit(c: char) {
    '0' <= c <= '9'
  }

  /** Regex `\w`, restricted to ASCII letters, digits and underscore. */
  predicate IsWordChar(c: char) {
    ('a' <= c <= 'z') || ('A' <= c <= 'Z') || IsDigit(c) || c == '_'
  }

  predicate AllDigits(s: string) {
    forall i :: 0 <= i < |s| ==> IsDigit(s[i])
  }

  /** Index just past the run of ASCII digits starting at `i`: where a
      greedy `\d+` starting at `i` stops. */
  function DigitRun(s: string, i: nat): (j: nat)
    requires i <= |s|
    ensures i <= j <= |s|
    ensures AllDigits(s[i..j])
    ensures j == |s| || !IsDigit(s[j])
    decreases |s| - i
  {
    if i == |s| || !IsDigit(s[i]) then i
    else
      var j := DigitRun(s, i + 1);
      assert s[i..j] == [s[i]] + s[i + 1..j];
      j
  }

  predicate StartsWith(s: string, prefix: string) {
    |prefix| <= |s| && s[..|prefix|] == prefix
  }

  predicate EndsWith(s: string, suffix: string) {
    |suffix| <= |s| && s[|s| - |suffix|..] == suffix
  }

  predicate NoSpace(w: string) {
    forall i :: 0 <= i < |w| ==> !IsSpace(w[i])
  }

  /** Index just past the run of non-space characters starting at `i`. */
  function WordEnd(s: string, i: nat): (j: nat)
    requires i <= |s|
    ensures i <= j <= |s|
    ensures forall k :: i <= k < j ==> !IsSpace(s[k])
    ensures j == |s| || IsSpace(s[j])
    decreases |s| - i
  {
    if i == |s| || IsSpace(s[i]) then i else WordEnd(s, i + 1)
  }

  /** The whitespace-separated tokens of `s`: what
      `re.sub(r'\s+', '\n', s.strip()).splitlines()` yields, since every
      line boundary `splitlines` knows is itself whitespace. */
  function Words(s: string): (ws: seq<string>)
    ensures forall k :: 0 <= k < |ws| ==> |ws[k]| > 0 && NoSpace(ws[k])
    decreases |s|
  {
    if |s| == 0 then []
    else if IsSpace(s[0]) then Words(s[1..])
    else
      var j := WordEnd(s, 0);
      [s[..j]] + Words(s[j..])
  }

  /** Joins tokens with one space between neighbours. */
  function JoinWords(ws: seq<string>): string {
    if |ws| == 0 then ""
    else if |ws| == 1 then ws[0]
    else ws[0] + " " + JoinWords(ws[1..])
  }

  lemma WordEndOfToken(w: string, rest: string)
    requires NoSpace(w)
    requires |rest| == 0 || IsSpace(rest[0])
    ensures WordEnd(w + rest, 0) == |w|
  {
    var s := w + rest;
    assert forall k :: 0 <= k < |w| ==> s[k] == w[k];
    assert |rest| == 0 || s[|w|] == rest[0];
  }

  /** Splitting space-joined tokens gives the tokens back. */
  lemma {:induction false} WordsJoinWords(ws: seq<string>)
    requires forall k :: 0 <= k < |ws| ==> |ws[k]| > 0 && NoSpace(ws[k])
    ensures Words(JoinWords(ws)) == ws
  {
    if |ws| == 0 {
    } else if |ws| == 1 {
      WordEndOfToken(ws[0], "");
      assert ws[0][..|ws[0]|] == ws[0];
      assert ws[0][|ws[0]|..] == "";
    } else {
      var rest := " " + JoinWords(ws[1..]);
      var s := ws[0] + rest;
      assert JoinWords(ws) == s;
      WordEndOfToken(ws[0], rest);
      assert s[..|ws[0]|] == ws[0];
      assert s[|ws[0]|..] == rest;
      assert IsSpace(rest[0]);
      assert rest[1..] == JoinWords(ws[1..]);
      WordsJoinWords(ws[1..]);
      assert Words(rest) == Words(JoinWords(ws[1..]));
    }
  }

  /** Character by character, `s` with every whitespace run collapsed to
      one space and the whitespace at both ends dropped. `started` says a
      non-space character has been emitted; `owed` that whitespace followed
      it, so the next non-space character is preceded by a space. */
  function Collapse(s: string, started: bool, owed: bool): string
    decreases |s|
  {
    if |s| == 0 then ""
    else if IsSpace(s[0]) then Collapse(s[1..], started, started)
    else (if owed then " " else "") + [s[0]] + Collapse(s[1..], true, false)
  }

  /** Inside a token, collapsing copies the characters. */
  lemma {:induction false} CollapseWord(s: string, i: nat, j: nat)
    requires i <= j <= |s|
    requires forall k :: i <= k < j ==> !IsSpace(s[k])
    ensures Collapse(s[i..], true, false) == s[i..j] + Collapse(s[j..], true, false)
    decreases j - i
  {
    if i < j {
      assert s[i..][1..] == s[i + 1..];
      CollapseWord(s, i + 1, j);
      assert s[i..j] == [s[i]] + s[i + 1..j];
    }
  }

  lemma JoinWordsCons(w: string, rest: seq<string>)
    ensures JoinWords([w] + rest) == w + (if |rest| == 0 then "" else " " + JoinWords(rest))
  {
    var ws := [w] + rest;
    assert ws[0] == w && ws[1..] == rest;
    if |rest| == 0 {
      assert |ws| == 1;
    } else {
      assert JoinWords(ws) == ws[0] + " " + JoinWords(ws[1..]);
    }
  }

  /** A text starting with a token collapses to the token followed by the
      collapse of what comes after it. */
  lemma CollapseToken(s: string, started: bool, j: nat)
    requires 0 < |s| && !IsSpace(s[0]) && j == WordEnd(s, 0)
    ensures Collapse(s, started, started) ==
      (if started then " " else "") + s[..j] + Collapse(s[j..], true, false)
  {
    var lead := if started then " " else "";
    var x := Collapse(s[j..], true, false);
    var y := Collapse(s[1..], true, false);
    assert Collapse(s, started, started) == lead + [s[0]] + y;
    assert y == s[1..j] + x by {
      CollapseWord(s, 1, j);
    }
    assert lead + [s[0]] + (s[1..j] + x) == lead + s[..j] + x by {
      assert s[..j] == [s[0]] + s[1..j];
    }
  }

  /** After a token comes whitespace, which the tokens and the collapse
      both skip. */
  lemma CollapseAfterToken(s: string, j: nat)
    requires j < |s| && IsSpace(s[j])
    ensures Words(s[j..]) == Words(s[j + 1..])
    ensures Collapse(s[j..], true, false) == Collapse(s[j + 1..], true, true)
  {
    assert s[j..][1..] == s[j + 1..];
  }

  /** Joining the tokens with single spaces collapses the whitespace of the
      text: the tokens are the text's non-space runs, in order. With
      `started`, a space separates them from the text before. */
  lemma {:induction false} JoinWordsCollapse(s: string, started: bool)
    ensures Collapse(s, started, started) ==
      (if started && |Words(s)| > 0 then " " else "") + JoinWords(Words(s))
    decreases |s|, 1
  {
    if |s| == 0 {
    } else if IsSpace(s[0]) {
      JoinWordsCollapse(s[1..], started);
    } else {
      JoinWordsCollapseToken(s, started);
    }
  }

  /** `JoinWordsCollapse` for a text that starts with a token. */
  lemma {:induction false} JoinWordsCollapseToken(s: string, started: bool)
    requires |s| > 0 && !IsSpace(s[0])
    ensures |Words(s)| > 0
    ensures Collapse(s, started, started) == (if started then " " else "") + JoinWords(Words(s))
    decreases |s|, 0
  {
    var j := WordEnd(s, 0);
    var w, rest := s[..j], Words(s[j..]);
    var lead := if started then " " else "";
    var tail := Collapse(s[j..], true, false);
    assert Words(s) == [w] + rest;
    assert Collapse(s, started, started) == lead + w + tail by {
      CollapseToken(s, started, j);
    }
    assert JoinWords(Words(s)) == w + tail by {
      JoinWordsCons(w, rest);
      if j < |s| {
        CollapseAfterToken(s, j);
        JoinWordsCollapse(s[j + 1..], true);
      }
    }
    assert lead + w + tail == lead + (w + tail);
  }

  /** `' '.join` of the tokens is the text with its whitespace collapsed. */
  lemma JoinWordsIsCollapse(s: string)
    ensures JoinWords(Words(s)) == Collapse(s, false, false)
  {
    JoinWordsCollapse(s, false);
  }

  /** Python's `s.split(sep)` with an explicit one-character separator. */
  function Split(s: string, sep: char): (parts: seq<string>)
    ensures |parts| >= 1
    ensures forall k :: 0 <= k < |parts| ==> sep !in parts[k]
    decreases |s|
  {
    if |s| == 0 then [""]
    else
      var rest := Split(s[1..], sep);
      if s[0] == sep then [""] + rest
      else [[s[0]] + rest[0]] + rest[1..]
  }

  /** `sep.join(parts)` for a one-character separator. */
  function Join(parts: seq<string>, sep: char): string
    requires |parts| >= 1
  {
    if |parts| == 1 then parts[0] else parts[0] + [sep] + Join(parts[1..], sep)
  }

  /** Joining the pieces of a split restores the original string. */
  lemma {:induction false} JoinSplit(s: string, sep: char)
    ensures Join(Split(s, sep), sep) == s
    decreases |s|
  {
    if |s| == 0 {
    } else {
      var rest := Split(s[1..], sep);
      JoinSplit(s[1..], sep);
      if s[0] == sep {
        assert Split(s, sep) == [""] + rest;
        assert ([""] + rest)[1..] == rest;
        assert Join([""] + rest, sep) == "" + [sep] + Join(rest, sep);
      } else {
        var parts := [[s[0]] + rest[0]] + rest[1..];
        assert Split(s, sep) == parts;
        if |rest| == 1 {
          assert Join(parts, sep) == [s[0]] + rest[0];
        } else {
          assert parts[1..] == rest[1..];
          assert Join(parts, sep) == [s[0]] + rest[0] + [sep] + Join(rest[1..], sep);
          assert Join(rest, sep) == rest[0] + [sep] + Join(rest[1..], sep);
        }
      }
    }
  }

  /** The text before the first `sep`: the first field a `csv.reader`
      yields for a line without quote characters. */
  function FirstField(s: string, sep: char): (f: string)
    ensures StartsWith(s, f)
    ensures sep !in f
    ensures |f| < |s| ==> s[|f|] == sep
  {
    if |s| == 0 || s[0] == sep then "" else [s[0]] + FirstField(s[1..], sep)
  }

  /** Python's `s.replace(a, b)` for single characters. */
  function ReplaceChar(s: string, a: char, b: char): (r: string)
    ensures |r| == |s|
    ensures forall k :: 0 <= k < |s| ==> r[k] == (if s[k] == a then b else s[k])
  {
    seq(|s|, k requires 0 <= k < |s| => if s[k] == a then b else s[k])
  }

  /** Python's `s.rstrip(c)`. */
  function RStrip(s: string, c: char): (r: string)
    ensures StartsWith(s, r)
    ensures |r| == 0 || r[|r| - 1] != c
    ensures forall k :: |r| <= k < |s| ==> s[k] == c
  {
    if |s| > 0 && s[|s| - 1] == c then RStrip(s[..|s| - 1], c) else s
  }

  /** The end of the run of whitespace starting at `i`. */
  function SpaceEnd(s: string, i: nat): (j: nat)
    requires i <= |s|
    ensures i <= j <= |s|
    ensures forall k :: i <= k < j ==> IsSpace(s[k])
    ensures j == |s| || !IsSpace(s[j])
    decreases |s| - i
  {
    if i == |s| || !IsSpace(s[i]) then i else SpaceEnd(s, i + 1)
  }

  /** The start of the run of whitespace ending at `j`, not going below `i`. */
  function SpaceStart(s: string, i: nat, j: nat): (k: nat)
    requires i <= j <= |s|
    ensures i <= k <= j
    ensures forall m :: k <= m < j ==> IsSpace(s[m])
    ensures k == i || !IsSpace(s[k - 1])
    decreases j
  {
    if j == i || !IsSpace(s[j - 1]) then j else SpaceStart(s, i, j - 1)
  }

  /** Python's `s.strip()` with no argument: the middle of `s` once the
      surrounding whitespace is dropped. */
  function Strip(s: string): (r: string)
    ensures |r| == 0 || (!IsSpace(r[0]) && !IsSpace(r[|r| - 1]))
    ensures exists i, j ::
      && 0 <= i <= j <= |s| && r == s[i..j]
      && (forall k :: 0 <= k < i ==> IsSpace(s[k]))
      && (forall k :: j <= k < |s| ==> IsSpace(s[k]))
  {
    var i := SpaceEnd(s, 0);
    var j := SpaceStart(s, i, |s|);
    s[i..j]
  }

  /** `os.path.basename` on POSIX: the text after the last '/'. */
  function Basename(p: string): (b: string)
    ensures '/' !in b
    ensures EndsWith(p, b)
    ensures |b| < |p| ==> p[|p| - |b| - 1] == '/'
  {
    if |p| == 0 || p[|p| - 1] == '/' then ""
    else Basename(p[..|p| - 1]) + [p[|p| - 1]]
  }

  /** A suffix without '/' ends the path exactly when it ends its base name,
      so testing the extension on the base name or on the whole path agrees. */
  lemma BasenameEndsWith(p: string, suffix: string)
    requires '/' !in suffix
    ensures EndsWith(Basename(p), suffix) <==> EndsWith(p, suffix)
  {
    var b := Basename(p);
    if EndsWith(p, suffix) && |b| < |suffix| {
      assert false;
    }
    if EndsWith(b, suffix) {
      assert p[|p| - |suffix|..] == b[|b| - |suffix|..];
    }
  }
}
