/** The Python text primitives the line format is built on: `str.strip()` with no
    argument, `str.startswith`, and the line-by-line iteration of a text stream. */
module Text {

  /** The characters for which Python's `str.isspace` holds, which `str.strip()`
      removes when it is given no argument: the ASCII controls 0x09-0x0D and
      0x1C-0x1F, the space, NEL, NBSP and the Unicode space separators. */
  const Whitespace: seq<char> := ['\t', '\n', '\U{0B}', '\U{0C}', '\r', '\U{1C}', '\U{1D}', '\U{1E}', '\U{1F}', ' ',
    '\U{85}', '\U{A0}', '\U{1680}', '\U{2000}', '\U{2001}', '\U{2002}', '\U{2003}', '\U{2004}', '\U{2005}', '\U{2006}',
    '\U{2007}', '\U{2008}', '\U{2009}', '\U{200A}', '\U{2028}', '\U{2029}', '\U{202F}', '\U{205F}', '\U{3000}']

  /** `c` is one of the whitespace characters from position `i` of the table on. */
  predicate WhitespaceFrom(c: char, i: nat)
    decreases |Whitespace| - i
  {
    i < |Whitespace| && (c == Whitespace[i] || WhitespaceFrom(c, i + 1))
  }

  predicate IsSpace(c: char) {
    WhitespaceFrom(c, 0)
  }

  /** Scanning the table from position `i` on finds exactly its entries from there. */
  lemma {:induction false} WhitespaceFromIsMembership(c: char, i: nat)
    ensures WhitespaceFrom(c, i) <==> exists j :: i <= j < |Whitespace| && Whitespace[j] == c
    decreases |Whitespace| - i
  {
    if i < |Whitespace| {
      WhitespaceFromIsMembership(c, i + 1);
    }
  }

  /** `str.isspace` holds for a character exactly when it is in the table. */
  lemma IsSpaceIsTableMembership(c: char)
    ensures IsSpace(c) <==> c in Whitespace
  {
    WhitespaceFromIsMembership(c, 0);
  }

  /** The line terminator is whitespace, so `Strip` removes it. */
  lemma NewlineIsSpace()
    ensures IsSpace('\n')
  {
    assert WhitespaceFrom('\n', 1);
  }

  predicate AllSpace(s: string) {
    forall k :: 0 <= k < |s| ==> IsSpace(s[k])
  }

  predicate NoLeadingSpace(s: string) {
    s == [] || !IsSpace(s[0])
  }

  predicate NoTrailingSpace(s: string) {
    s == [] || !IsSpace(s[|s| - 1])
  }

  /** Neither end of `s` is whitespace. */
  predicate IsStripped(s: string) {
    NoLeadingSpace(s) && NoTrailingSpace(s)
  }

  /** `str.lstrip()`: drops the longest all-whitespace prefix (`TrimStartAt` and
      `TrimStartDrops` state the rest of what that means). */
  function TrimStart(s: string): (r: string)
    ensures |r| <= |s|
    ensures NoLeadingSpace(r)
  {
    if |s| > 0 && IsSpace(s[0]) then TrimStart(s[1..]) else s
  }

  /** `str.rstrip()`: drops the longest all-whitespace suffix (`TrimEndAt` and
      `TrimEndDrops` state the rest of what that means). */
  function TrimEnd(s: string): (r: string)
    ensures |r| <= |s|
    ensures NoTrailingSpace(r)
    ensures NoLeadingSpace(s) ==> NoLeadingSpace(r)
  {
    if |s| > 0 && IsSpace(s[|s| - 1]) then TrimEnd(s[..|s| - 1]) else s
  }

  /** What `TrimStart` returns is the last `|TrimStart(s)|` characters of `s`. */
  lemma {:induction false} TrimStartAt(s: string, k: nat)
    requires k < |TrimStart(s)|
    ensures TrimStart(s)[k] == s[|s| - |TrimStart(s)| + k]
  {
    if |s| > 0 && IsSpace(s[0]) {
      TrimStartAt(s[1..], k);
    }
  }

  /** Everything before what `TrimStart` returns is whitespace. */
  lemma {:induction false} TrimStartDrops(s: string, k: nat)
    requires k < |s| - |TrimStart(s)|
    ensures IsSpace(s[k])
  {
    if k > 0 {
      TrimStartDrops(s[1..], k - 1);
    }
  }

  /** What `TrimEnd` returns is the first `|TrimEnd(s)|` characters of `s`. */
  lemma {:induction false} TrimEndAt(s: string, k: nat)
    requires k < |TrimEnd(s)|
    ensures TrimEnd(s)[k] == s[k]
  {
    if |s| > 0 && IsSpace(s[|s| - 1]) {
      TrimEndAt(s[..|s| - 1], k);
    }
  }

  /** Everything after what `TrimEnd` returns is whitespace. */
  lemma {:induction false} TrimEndDrops(s: string, k: nat)
    requires |TrimEnd(s)| <= k < |s|
    ensures IsSpace(s[k])
  {
    if k < |s| - 1 {
      TrimEndDrops(s[..|s| - 1], k);
    }
  }

  /** `str.strip()`: the line without its leading and trailing whitespace. */
  function Strip(s: string): (r: string)
    ensures IsStripped(r)
    ensures |r| <= |s|
  {
    TrimEnd(TrimStart(s))
  }

  /** The number of leading whitespace characters `Strip` removes. */
  function StripOffset(s: string): nat {
    |s| - |TrimStart(s)|
  }

  /** What `Strip` returns is the slice of `s` of its own length starting at
      `StripOffset(s)`, and everything cut off on either side of it is whitespace. */
  lemma StripIsSlice(s: string)
    ensures StripOffset(s) + |Strip(s)| <= |s|
    ensures forall k :: 0 <= k < |Strip(s)| ==> Strip(s)[k] == s[StripOffset(s) + k]
    ensures forall k :: 0 <= k < StripOffset(s) ==> IsSpace(s[k])
    ensures forall k :: StripOffset(s) + |Strip(s)| <= k < |s| ==> IsSpace(s[k])
  {
    forall k | 0 <= k < |Strip(s)| ensures Strip(s)[k] == s[StripOffset(s) + k] {
      StripAt(s, k);
    }
    forall k | 0 <= k < StripOffset(s) ensures IsSpace(s[k]) {
      TrimStartDrops(s, k);
    }
    forall k | StripOffset(s) + |Strip(s)| <= k < |s| ensures IsSpace(s[k]) {
      StripDropsTrailAt(s, k);
    }
  }

  /** Everything after what `Strip` keeps is whitespace. */
  lemma StripDropsTrailAt(s: string, k: nat)
    requires StripOffset(s) + |Strip(s)| <= k < |s|
    ensures IsSpace(s[k])
  {
    var t := TrimStart(s);
    var j := k - StripOffset(s);
    TrimEndDrops(t, j);
    TrimStartAt(s, j);
  }

  /** What `Strip` keeps sits in `s` at offset `StripOffset(s)`. */
  lemma StripAt(s: string, k: nat)
    requires k < |Strip(s)|
    ensures Strip(s)[k] == s[StripOffset(s) + k]
  {
    var t := TrimStart(s);
    TrimEndAt(t, k);
    TrimStartAt(s, k);
  }

  /** `Strip` introduces no character that was not in the line. */
  lemma StripAddsNothing(s: string, c: char)
    requires c !in s
    ensures c !in Strip(s)
  {
    forall k | 0 <= k < |Strip(s)| ensures Strip(s)[k] != c {
      StripAt(s, k);
      assert s[StripOffset(s) + k] in s;
    }
  }

  /** Leading whitespace does not change what `TrimStart` returns. */
  lemma {:induction false} TrimStartPrepend(a: string, t: string)
    requires AllSpace(a)
    ensures TrimStart(a + t) == TrimStart(t)
  {
    if a == [] {
      assert a + t == t;
    } else {
      assert (a + t)[0] == a[0];
      assert (a + t)[1..] == a[1..] + t;
      TrimStartPrepend(a[1..], t);
    }
  }

  lemma {:induction false} TrimStartAllSpace(b: string)
    requires AllSpace(b)
    ensures TrimStart(b) == []
  {
    if b != [] {
      assert AllSpace(b[1..]) by {
        assert forall k :: 0 <= k < |b| - 1 ==> b[1..][k] == b[k + 1];
      }
      TrimStartAllSpace(b[1..]);
    }
  }

  /** Trailing whitespace is kept by `TrimStart`, unless everything was whitespace. */
  lemma {:induction false} TrimStartAppend(x: string, b: string)
    requires AllSpace(b)
    ensures TrimStart(x + b) == if TrimStart(x) == [] then [] else TrimStart(x) + b
  {
    if x == [] {
      assert x + b == b;
      TrimStartAllSpace(b);
    } else if IsSpace(x[0]) {
      assert (x + b)[1..] == x[1..] + b;
      TrimStartAppend(x[1..], b);
    }
  }

  /** Trailing whitespace does not change what `TrimEnd` returns. */
  lemma {:induction false} TrimEndAppend(t: string, b: string)
    requires AllSpace(b)
    ensures TrimEnd(t + b) == TrimEnd(t)
    decreases |b|
  {
    if b == [] {
      assert t + b == t;
    } else {
      var n := |b| - 1;
      assert (t + b)[|t + b| - 1] == b[n];
      assert (t + b)[..|t + b| - 1] == t + b[..n];
      TrimEndAppend(t, b[..n]);
    }
  }

  /** Whitespace on both sides of a stripped text is exactly what `Strip` removes. */
  lemma StripUnique(a: string, m: string, b: string)
    requires AllSpace(a) && AllSpace(b) && IsStripped(m)
    ensures Strip(a + m + b) == m
  {
    assert a + m + b == a + (m + b);
    TrimStartPrepend(a, m + b);
    TrimStartAppend(m, b);
    if m != [] {
      TrimEndAppend(m, b);
    }
  }

  /** `Strip` is idempotent, and its fixed points are exactly the stripped texts. */
  lemma StripFixedPoint(s: string)
    ensures Strip(Strip(s)) == Strip(s)
    ensures Strip(s) == s <==> IsStripped(s)
  {
  }

  /** Appending whitespace does not change what `Strip` returns. */
  lemma StripIgnoresTrailingSpace(x: string, b: string)
    requires AllSpace(b)
    ensures Strip(x + b) == Strip(x)
  {
    TrimStartAppend(x, b);
    if TrimStart(x) != [] {
      TrimEndAppend(TrimStart(x), b);
    }
  }

  /** Trailing whitespace (such as a line terminator) added to a stripped text is
      removed again by `Strip`. */
  lemma StripTrailing(m: string, b: string)
    requires IsStripped(m) && AllSpace(b)
    ensures Strip(m + b) == m
  {
    StripIgnoresTrailingSpace(m, b);
  }

  /** `str.startswith(prefix)`. */
  predicate StartsWith(s: string, prefix: string) {
    |prefix| <= |s| && s[..|prefix|] == prefix
  }

  /** Starting with a one-character prefix is having that character first. */
  lemma StartsWithOneChar(s: string, c: char)
    ensures StartsWith(s, [c]) <==> s != [] && s[0] == c
  {
    if s != [] && s[0] == c {
      assert s[..1] == [c];
    }
  }

  /** The texts `lines` joined end to end. */
  function Concat(lines: seq<string>): string {
    if lines == [] then [] else lines[0] + Concat(lines[1..])
  }

  lemma {:induction false} ConcatAppend(a: seq<string>, b: seq<string>)
    ensures Concat(a + b) == Concat(a) + Concat(b)
  {
    if a == [] {
      assert a + b == b;
    } else {
      assert (a + b)[1..] == a[1..] + b;
      ConcatAppend(a[1..], b);
    }
  }

  /** Offset of the first '\n' in `s`, or `|s|` when there is none. */
  function NewlineIndex(s: string): (i: nat)
    ensures i <= |s|
    ensures forall k :: 0 <= k < i ==> s[k] != '\n'
    ensures i < |s| ==> s[i] == '\n'
  {
    if s == [] || s[0] == '\n' then 0 else 1 + NewlineIndex(s[1..])
  }

  /** A line as iterating a text stream yields it: not empty, and holding '\n' at
      most as its last character. */
  predicate IsFileLine(line: string) {
    line != [] && forall k :: 0 <= k < |line| - 1 ==> line[k] != '\n'
  }

  predicate EndsWithNewline(line: string) {
    line != [] && line[|line| - 1] == '\n'
  }

  /** Iterating a text stream (`for line in fp`): the text cut after every '\n',
      each line keeping its terminator; a final line without '\n' is yielded as it
      is, and a text that ends in '\n' yields no empty last line. */
  function FileLines(text: string): (lines: seq<string>)
    ensures Concat(lines) == text
    ensures forall k :: 0 <= k < |lines| ==> IsFileLine(lines[k])
    ensures forall k :: 0 <= k < |lines| - 1 ==> EndsWithNewline(lines[k])
    decreases |text|
  {
    if text == [] then []
    else
      var i := NewlineIndex(text);
      if i == |text| then
        assert Concat([text]) == text + Concat([]);
        [text]
      else
        var rest := FileLines(text[i + 1..]);
        assert ([text[..i + 1]] + rest)[1..] == rest;
        assert text[..i + 1] + text[i + 1..] == text;
        [text[..i + 1]] + rest
  }

  /** The properties in the contract of `FileLines` determine its result: any
      sequence of lines with them is what iterating their concatenation yields. */
  lemma {:induction false} FileLinesUnique(lines: seq<string>)
    requires forall k :: 0 <= k < |lines| ==> IsFileLine(lines[k])
    requires forall k :: 0 <= k < |lines| - 1 ==> EndsWithNewline(lines[k])
    ensures FileLines(Concat(lines)) == lines
  {
    if lines != [] {
      var text := Concat(lines);
      var head := lines[0];
      assert text == head + Concat(lines[1..]);
      var i := NewlineIndex(text);
      if |lines| == 1 {
        assert Concat(lines[1..]) == [];
        assert text == head;
        if EndsWithNewline(head) {
          assert i == |head| - 1;
          assert text[..i + 1] == head;
          assert FileLines(text[i + 1..]) == [];
        } else {
          assert i == |head|;
        }
      } else {
        assert head[|head| - 1] == '\n';
        assert text[|head| - 1] == '\n';
        assert forall k :: 0 <= k < |head| - 1 ==> text[k] == head[k];
        assert i == |head| - 1;
        assert text[..i + 1] == head;
        assert text[i + 1..] == Concat(lines[1..]);
        FileLinesUnique(lines[1..]);
        assert lines == [head] + lines[1..];
      }
    }
  }

  /** A text without '\n', terminated by one, is a single line. */
  lemma FileLinesOfOneLine(line: string)
    requires '\n' !in line
    ensures FileLines(line + "\n") == [line + "\n"]
  {
    var t := line + "\n";
    assert forall k :: 0 <= k < |line| ==> t[k] == line[k];
    assert IsFileLine(t);
    var none: seq<string> := [];
    assert [t][1..] == none;
    assert Concat([t]) == t;
    FileLinesUnique([t]);
  }

  /** The last character of a concatenation is that of its last part. */
  lemma {:induction false} ConcatLast(lines: seq<string>)
    requires lines != [] && lines[|lines| - 1] != []
    ensures var t, last := Concat(lines), lines[|lines| - 1];
      t != [] && t[|t| - 1] == last[|last| - 1]
  {
    if |lines| > 1 {
      ConcatLast(lines[1..]);
      assert lines[1..][|lines| - 2] == lines[|lines| - 1];
    }
  }

  /** Lines as a stream yields them, followed by more such lines, are again such
      lines when the first part ends with a terminator. */
  lemma JoinedLines(la: seq<string>, lb: seq<string>)
    requires forall k :: 0 <= k < |la| ==> IsFileLine(la[k])
    requires forall k :: 0 <= k < |la| ==> EndsWithNewline(la[k])
    requires forall k :: 0 <= k < |lb| ==> IsFileLine(lb[k])
    requires forall k :: 0 <= k < |lb| - 1 ==> EndsWithNewline(lb[k])
    ensures forall k :: 0 <= k < |la + lb| ==> IsFileLine((la + lb)[k])
    ensures forall k :: 0 <= k < |la + lb| - 1 ==> EndsWithNewline((la + lb)[k])
  {
  }

  /** A text that ends at a line boundary iterates to its lines followed by the
      lines of whatever comes after it. */
  lemma FileLinesAppend(a: string, b: string)
    requires a == [] || a[|a| - 1] == '\n'
    ensures FileLines(a + b) == FileLines(a) + FileLines(b)
  {
    var la, lb := FileLines(a), FileLines(b);
    TerminatedTextLines(a);
    JoinedLines(la, lb);
    ConcatAppend(la, lb);
    FileLinesUnique(la + lb);
  }

  /** Every line of a text that ends in '\n' ends in '\n'. */
  lemma TerminatedTextLines(a: string)
    requires a == [] || a[|a| - 1] == '\n'
    ensures forall k :: 0 <= k < |FileLines(a)| ==> EndsWithNewline(FileLines(a)[k])
  {
    var la := FileLines(a);
    if la != [] {
      ConcatLast(la);
    }
  }
}
