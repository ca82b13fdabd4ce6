/**
 * The string operations the batch runner relies on: Python's `str.isspace`
 * (which is what `\s` matches in a `str` pattern), `str.splitlines`,
 * `os.path.basename` on POSIX, and the negative slice `s[:-n]`.
 */
module Text {

  /** The characters for which Python's `str.isspace()` is true. */
  predicate IsSpace(c: char) {
    || c == ' '
    || ('\t' <= c <= '\r')
    || ('\U{1C}' <= c <= '\U{1F}')
    || c == '\U{85}'
    || c == '\U{A0}'
    || c == '\U{1680}'
    || ('\U{2000}' <= c <= '\U{200A}')
    || c == '\U{2028}'
    || c == '\U{2029}'
    || c == '\U{202F}'
    || c == '\U{205F}'
    || c == '\U{3000}'
  }

  /** The characters at which `str.splitlines()` ends a line; `\r\n` counts as one break. */
  predicate IsLineBreak(c: char) {
    || ('\n' <= c <= '\r')
    || ('\U{1C}' <= c <= '\U{1E}')
    || c == '\U{85}'
    || c == '\U{2028}'
    || c == '\U{2029}'
  }

  predicate NoLineBreak(line: string) {
    forall k :: 0 <= k < |line| ==> !IsLineBreak(line[k])
  }

  /** The index of the first line break of `s` at or after `i`, or `|s|` when there is none. */
  function LineEnd(s: string, i: nat): (e: nat)
    requires i <= |s|
    ensures i <= e <= |s|
    ensures forall k :: i <= k < e ==> !IsLineBreak(s[k])
    ensures e < |s| ==> IsLineBreak(s[e])
    decreases |s| - i
  {
    if i == |s| || IsLineBreak(s[i]) then i else LineEnd(s, i + 1)
  }

  /** Where the line ending at `e` is continued: past `\r\n` as a pair, past any other break alone. */
  function NextLineStart(s: string, e: nat): (n: nat)
    requires e <= |s|
    ensures e < n <= |s| || n == e == |s|
  {
    if e == |s| then e
    else if s[e] == '\r' && e + 1 < |s| && s[e + 1] == '\n' then e + 2
    else e + 1
  }

  /**
   * `str.splitlines()` without `keepends`: the text between line breaks, with
   * no empty line after a final break and no line at all for the empty string.
   */
  function SplitLines(s: string): (lines: seq<string>)
    ensures forall k :: 0 <= k < |lines| ==> NoLineBreak(lines[k])
    decreases |s|
  {
    if s == [] then []
    else
      var e := LineEnd(s, 0);
      [s[..e]] + SplitLines(s[NextLineStart(s, e)..])
  }

  /** Every line followed by the line terminator `eol`. */
  function JoinLines(lines: seq<string>, eol: string): string {
    if lines == [] then [] else lines[0] + eol + JoinLines(lines[1..], eol)
  }

  predicate IsLineTerminator(eol: string) {
    eol == "\n" || eol == "\r\n" || eol == "\r"
  }

  lemma LineEndOfPrefix(line: string, rest: string)
    requires NoLineBreak(line)
    requires rest == [] || IsLineBreak(rest[0])
    ensures LineEnd(line + rest, 0) == |line|
  {
    var s := line + rest;
    assert forall k :: 0 <= k < |line| ==> s[k] == line[k];
    assert |line| < |s| ==> s[|line|] == rest[0];
  }

  /** The first character of joined lines, when there is one, is a line character or the terminator's. */
  lemma JoinLinesStart(lines: seq<string>, eol: string)
    requires IsLineTerminator(eol)
    requires forall k :: 0 <= k < |lines| ==> NoLineBreak(lines[k])
    ensures var s := JoinLines(lines, eol);
      s != [] ==> s[0] == '\r' || s[0] == '\n' || !IsLineBreak(s[0])
  {
    if lines != [] {
      var s := JoinLines(lines, eol);
      if lines[0] != [] {
        assert s[0] == lines[0][0];
      } else {
        assert s[0] == eol[0];
      }
    }
  }

  /** A line without breaks, its terminator and the rest split into that line and the rest's lines. */
  lemma {:induction false} SplitLinesCons(line: string, eol: string, rest: string)
    requires NoLineBreak(line) && IsLineTerminator(eol)
    requires eol == "\r" ==> rest == [] || rest[0] != '\n'
    ensures SplitLines(line + eol + rest) == [line] + SplitLines(rest)
  {
    var s := line + eol + rest;
    assert s == line + (eol + rest);
    LineEndOfPrefix(line, eol + rest);
    var e := LineEnd(s, 0);
    assert s[..e] == line;
    assert s[NextLineStart(s, e)..] == rest;
  }

  /** A non-empty text without any break is one line. */
  lemma {:induction false} SplitLinesSingle(line: string)
    requires line != [] && NoLineBreak(line)
    ensures SplitLines(line) == [line]
  {
    LineEndOfPrefix(line, []);
    assert line + [] == line;
    assert line[|line|..] == [];
  }

  /** Splitting lines terminated by `\n`, `\r\n` or `\r` gives the lines back. */
  lemma {:induction false} SplitJoin(lines: seq<string>, eol: string)
    requires IsLineTerminator(eol)
    requires forall k :: 0 <= k < |lines| ==> NoLineBreak(lines[k])
    ensures SplitLines(JoinLines(lines, eol)) == lines
  {
    if lines != [] {
      var rest := JoinLines(lines[1..], eol);
      JoinLinesStart(lines[1..], eol);
      if eol == "\r" && rest != [] {
        assert rest[0] != '\n' by {
          if lines[1] != [] {
            assert rest[0] == lines[1][0];
          } else {
            assert rest[0] == eol[0];
          }
        }
      }
      SplitLinesCons(lines[0], eol, rest);
      SplitJoin(lines[1..], eol);
      assert lines == [lines[0]] + lines[1..];
    }
  }

  /** The position just after the last `/` of `s`, or 0 when `s` has none. */
  function LastSlashEnd(s: string): (k: nat)
    ensures k <= |s|
    ensures k > 0 ==> s[k - 1] == '/'
    ensures forall j :: k <= j < |s| ==> s[j] != '/'
  {
    if s == [] then 0
    else if s[|s| - 1] == '/' then |s|
    else LastSlashEnd(s[..|s| - 1])
  }

  /** POSIX `os.path.basename`: the text after the last `/`. */
  function Basename(path: string): string {
    path[LastSlashEnd(path)..]
  }

  /**
   * The base name is exactly the longest suffix of the path that has no `/`:
   * either the whole path, or what follows a `/`.
   */
  lemma BasenameIsLastComponent(path: string, name: string)
    ensures Basename(path) == name <==>
      && '/' !in name
      && |name| <= |path|
      && path[|path| - |name|..] == name
      && (|name| == |path| || path[|path| - |name| - 1] == '/')
  {
    var k := LastSlashEnd(path);
    if Basename(path) == name {
      assert |path| - |name| == k;
      forall c | c in name ensures c != '/' {
        var j :| 0 <= j < |name| && name[j] == c;
        assert path[k + j] == c;
      }
    }
    if && '/' !in name && |name| <= |path| && path[|path| - |name|..] == name
       && (|name| == |path| || path[|path| - |name| - 1] == '/')
    {
      assert |path| - |name| == k;
    }
  }

  /** Python's `s[:-n]` for `n > 0`: all but the last `n` characters, or the empty string when `s` is shorter. */
  function DropLast(s: string, n: nat): (r: string)
    requires n > 0
    ensures r <= s
    ensures |r| == if |s| < n then 0 else |s| - n
  {
    if |s| < n then [] else s[..|s| - n]
  }
}
