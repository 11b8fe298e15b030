/** The serialisation formats of the configuration package and the file extension
    each one gives its files. */
module Formats {

  datatype Format = JsonFormat | YamlFormat(autogenerated: bool) | LinesFormat {

    /** The extension of files in this format: a dot followed by a non-empty run of
        lower-case letters, as a path suffix must be. */
    function Ext(): (e: string)
      ensures |e| >= 2 && e[0] == '.'
      ensures forall k :: 1 <= k < |e| ==> 'a' <= e[k] <= 'z'
    {
      match this
      case JsonFormat => ".json"
      case YamlFormat(_) => ".yaml"
      case LinesFormat => ".txt"
    }
  }

  /** Formats of different kinds never share an extension, and the YAML flag for
      generated files does not change the extension. */
  lemma ExtDistinguishesKinds(f: Format, g: Format)
    ensures f.Ext() == g.Ext() <==>
      (f.JsonFormat? && g.JsonFormat?) || (f.YamlFormat? && g.YamlFormat?) || (f.LinesFormat? && g.LinesFormat?)
  {
    if f.JsonFormat? && g.YamlFormat? { assert f.Ext()[1] != g.Ext()[1]; }
    if f.YamlFormat? && g.JsonFormat? { assert f.Ext()[1] != g.Ext()[1]; }
    if f.JsonFormat? && g.LinesFormat? { assert |f.Ext()| != |g.Ext()|; }
    if f.LinesFormat? && g.JsonFormat? { assert |f.Ext()| != |g.Ext()|; }
    if f.YamlFormat? && g.LinesFormat? { assert |f.Ext()| != |g.Ext()|; }
    if f.LinesFormat? && g.YamlFormat? { assert |f.Ext()| != |g.Ext()|; }
  }
}

/** The line-oriented text format: one entry per line, surrounding whitespace
    removed, blank lines and lines starting with the comment marker ignored. */
module LinesFormat {
  import opened Text

  /** What `dump` reports instead of writing, and a written text on success. */
  datatype Result<T> = Ok(value: T) | Err(message: string)

  /** The value handed to `dump`: a list of entries, or anything that is not a list. */
  datatype Data = List(entries: seq<string>) | NotAList

  /** The comment marker. */
  const Comment: string := "#"

  /** The message of the exception `dump` raises for data that is not a list. */
  const NotAListMessage: string := "LinesFormat support only lists of strings as data type"

  predicate IsComment(line: string) {
    StartsWith(line, Comment)
  }

  /** A comment line is one whose first character is the comment marker. */
  lemma IsCommentIsHash(line: string)
    ensures IsComment(line) <==> line != [] && line[0] == '#'
  {
    StartsWithOneChar(line, '#');
  }

  /** The filter of the list comprehension in `load`: a stripped line is kept when
      it is not empty and does not start with the comment marker. */
  predicate Kept(line: string) {
    line != [] && !IsComment(line)
  }

  /** A line passes the filter exactly when it has a first character and that
      character is not the comment marker. */
  lemma KeptIsNonEmptyNotHash(line: string)
    ensures Kept(line) <==> line != [] && line[0] != '#'
  {
    IsCommentIsHash(line);
  }

  /** The generator of stripped lines in `load`. */
  function StripAll(lines: seq<string>): (r: seq<string>)
    ensures |r| == |lines|
    ensures forall k :: 0 <= k < |r| ==> IsStripped(r[k])
  {
    seq(|lines|, k requires 0 <= k < |lines| => Strip(lines[k]))
  }

  /** The lines that pass the filter, in their order. */
  function Select(lines: seq<string>): (r: seq<string>)
    ensures |r| <= |lines|
    ensures forall k :: 0 <= k < |r| ==> Kept(r[k])
    ensures forall k :: 0 <= k < |r| ==> r[k] in lines
  {
    if lines == [] then []
    else
      var rest := Select(lines[1..]);
      assert forall x :: x in lines[1..] ==> x in lines;
      if Kept(lines[0]) then [lines[0]] + rest else rest
  }

  /** `load`: the lines of the text, stripped, without blank and comment lines. */
  function Load(text: string): (r: seq<string>)
    ensures forall k :: 0 <= k < |r| ==> Kept(r[k]) && IsStripped(r[k]) && '\n' !in r[k]
  {
    var lines := FileLines(text);
    StrippedLinesHaveNoNewline(lines);
    Select(StripAll(lines))
  }

  /** No stripped line of a stream holds a '\n'. */
  lemma StrippedLinesHaveNoNewline(lines: seq<string>)
    requires forall k :: 0 <= k < |lines| ==> IsFileLine(lines[k])
    ensures forall k :: 0 <= k < |lines| ==> '\n' !in Strip(lines[k])
  {
    forall k | 0 <= k < |lines| ensures '\n' !in Strip(lines[k]) {
      StrippedLineHasNoNewline(lines[k]);
    }
  }

  /** A line as a stream yields it loses its only possible '\n' to `Strip`. */
  lemma StrippedLineHasNoNewline(line: string)
    requires IsFileLine(line)
    ensures '\n' !in Strip(line)
  {
    if EndsWithNewline(line) {
      var text := line[..|line| - 1];
      assert line == text + "\n";
      assert forall k :: 0 <= k < |text| ==> text[k] == line[k];
      NewlineIsSpace();
      StripIgnoresTrailingSpace(text, "\n");
      StripAddsNothing(text, '\n');
    } else {
      StripAddsNothing(line, '\n');
    }
  }

  /** The text one entry is written as. */
  function DumpLine(entry: string): (line: string)
    ensures EndsWithNewline(line)
    ensures IsStripped(line[..|line| - 1])
    ensures Strip(line) == Strip(entry)
    ensures '\n' !in Strip(entry) ==> IsFileLine(line)
  {
    var s := Strip(entry);
    NewlineIsSpace();
    assert AllSpace("\n");
    StripTrailing(s, "\n");
    assert (s + "\n")[..|s|] == s;
    assert forall j :: 0 <= j < |s| ==> (s + "\n")[j] == s[j];
    s + "\n"
  }

  /** The lines `dump` writes, one per entry. */
  function WrittenLines(entries: seq<string>): (lines: seq<string>)
    ensures |lines| == |entries|
    ensures forall k :: 0 <= k < |lines| ==>
      EndsWithNewline(lines[k]) && IsStripped(lines[k][..|lines[k]| - 1]) && Strip(lines[k]) == Strip(entries[k])
  {
    seq(|entries|, k requires 0 <= k < |entries| => DumpLine(entries[k]))
  }

  /** `dump`: the text appended to the stream, or the error raised for data that is
      not a list (in which case nothing is written). */
  function Dump(data: Data): (r: Result<string>)
    ensures r.Err? <==> !data.List?
    ensures r.Err? ==> r.message == NotAListMessage
    ensures r.Ok? ==> r.value == [] || r.value[|r.value| - 1] == '\n'
    ensures r.Ok? ==> |r.value| >= |data.entries|
  {
    match data
    case NotAList => Err(NotAListMessage)
    case List(entries) =>
      var lines := WrittenLines(entries);
      TerminatedLines(lines);
      Ok(Concat(lines))
  }

  /** Lines that each end in '\n' join to a text that ends in '\n' (or is empty)
      and holds at least one character per line. */
  lemma {:induction false} TerminatedLines(lines: seq<string>)
    requires forall k :: 0 <= k < |lines| ==> EndsWithNewline(lines[k])
    ensures var t := Concat(lines); (t == [] || t[|t| - 1] == '\n') && |t| >= |lines|
  {
    if lines != [] {
      TerminatedLines(lines[1..]);
      ConcatLast(lines);
    }
  }

  // ---------------------------------------------------------------------------
  // The filter of `load`

  /** Filtering distributes over concatenation, so kept lines stay in order. */
  lemma {:induction false} SelectAppend(a: seq<string>, b: seq<string>)
    ensures Select(a + b) == Select(a) + Select(b)
  {
    if a == [] {
      assert a + b == b;
    } else {
      assert (a + b)[1..] == a[1..] + b;
      SelectAppend(a[1..], b);
    }
  }

  /** A line survives the filter exactly when it is kept. */
  lemma SelectOne(line: string)
    ensures Select([line]) == if Kept(line) then [line] else []
  {
    assert [line][1..] == [];
  }

  /** A line appears in the output exactly when it appears in the input and is kept. */
  lemma {:induction false} SelectMembership(lines: seq<string>, x: string)
    ensures x in Select(lines) <==> x in lines && Kept(x)
  {
    if lines != [] {
      SelectMembership(lines[1..], x);
      assert lines == [lines[0]] + lines[1..];
    }
  }

  /** Input lines that all pass the filter come through unchanged; in particular
      filtering twice is filtering once. */
  lemma {:induction false} SelectAllKept(lines: seq<string>)
    requires forall k :: 0 <= k < |lines| ==> Kept(lines[k])
    ensures Select(lines) == lines
  {
    if lines != [] {
      SelectAllKept(lines[1..]);
    }
  }

  /** Filtering the filtered lines again changes nothing. */
  lemma SelectIdempotent(lines: seq<string>)
    ensures Select(Select(lines)) == Select(lines)
  {
    SelectAllKept(Select(lines));
  }

  /** The positions of the kept lines, in increasing order. */
  function KeptIndices(lines: seq<string>): seq<nat>
    decreases |lines|
  {
    if lines == [] then []
    else
      var n := |lines| - 1;
      KeptIndices(lines[..n]) + (if Kept(lines[n]) then [n] else [])
  }

  /** The kept positions are positions of the input, in strictly increasing order,
      and a position is among them exactly when its line passes the filter. */
  lemma {:induction false} KeptIndicesAreKeptPositions(lines: seq<string>)
    ensures var idx := KeptIndices(lines);
      (forall k :: 0 <= k < |idx| ==> idx[k] < |lines|)
      && (forall k, j :: 0 <= k < j < |idx| ==> idx[k] < idx[j])
      && (forall j :: 0 <= j < |lines| ==> (j in idx <==> Kept(lines[j])))
    decreases |lines|
  {
    if lines != [] {
      var n := |lines| - 1;
      var init := lines[..n];
      KeptIndicesAreKeptPositions(init);
      var idx0, idx := KeptIndices(init), KeptIndices(lines);
      assert idx == idx0 + (if Kept(lines[n]) then [n] else []);
      forall j | 0 <= j < |lines| ensures j in idx <==> Kept(lines[j]) {
        if j < n {
          assert init[j] == lines[j];
          assert j in idx <==> j in idx0;
        } else {
          assert n !in idx0;
        }
      }
    }
  }

  /** The output is the subsequence of the input at the kept positions: together
      with `KeptIndicesAreKeptPositions`, kept lines are neither reordered nor
      duplicated, and a line is in the output exactly when it passes the filter. */
  lemma {:induction false} SelectIsKeptSubsequence(lines: seq<string>)
    ensures var r, idx := Select(lines), KeptIndices(lines);
      |r| == |idx|
      && (forall k :: 0 <= k < |idx| ==> idx[k] < |lines| && r[k] == lines[idx[k]])
      && (forall k, j :: 0 <= k < j < |idx| ==> idx[k] < idx[j])
      && (forall j :: 0 <= j < |lines| ==> (j in idx <==> Kept(lines[j])))
    decreases |lines|
  {
    KeptIndicesAreKeptPositions(lines);
    SelectAtKeptIndices(lines);
  }

  /** The i-th line of the output is the input line at the i-th kept position. */
  lemma {:induction false} SelectAtKeptIndices(lines: seq<string>)
    ensures var r, idx := Select(lines), KeptIndices(lines);
      |r| == |idx| && forall k :: 0 <= k < |idx| ==> idx[k] < |lines| && r[k] == lines[idx[k]]
    decreases |lines|
  {
    if lines != [] {
      var n := |lines| - 1;
      var init, last := lines[..n], lines[n];
      SelectAtKeptIndices(init);
      assert init + [last] == lines;
      SelectAppend(init, [last]);
      SelectOne(last);
      var r0, idx0 := Select(init), KeptIndices(init);
      var r, idx := Select(lines), KeptIndices(lines);
      assert r == r0 + (if Kept(last) then [last] else []);
      assert idx == idx0 + (if Kept(last) then [n] else []);
      forall k | 0 <= k < |idx| ensures idx[k] < |lines| && r[k] == lines[idx[k]] {
        if k < |idx0| {
          assert idx[k] == idx0[k] && r[k] == r0[k];
          assert init[idx0[k]] == lines[idx0[k]];
        }
      }
    }
  }

  // ---------------------------------------------------------------------------
  // `load` and `dump` together

  /** `load` keeps the lines of the text, stripped, at exactly the positions whose
      stripped line is neither empty nor a comment, in their original order. */
  lemma LoadKeepsLines(text: string)
    ensures var lines := StripAll(FileLines(text));
      var r, idx := Load(text), KeptIndices(lines);
      |r| == |idx|
      && (forall k :: 0 <= k < |idx| ==> idx[k] < |lines| && r[k] == Strip(FileLines(text)[idx[k]]))
      && (forall k, j :: 0 <= k < j < |idx| ==> idx[k] < idx[j])
      && (forall j :: 0 <= j < |lines| ==> (j in idx <==> Kept(Strip(FileLines(text)[j]))))
  {
    SelectIsKeptSubsequence(StripAll(FileLines(text)));
  }

  /** No entry `load` returns has whitespace at either end: each equals its own
      stripped form. */
  lemma LoadEntriesAreStripped(text: string)
    ensures forall x :: x in Load(text) ==> Strip(x) == x
  {
    forall x | x in Load(text) ensures Strip(x) == x {
      StripFixedPoint(x);
    }
  }

  /** One terminated line loads to its stripped form when that is neither empty
      nor a comment, and to nothing otherwise. */
  lemma LoadOneLine(line: string)
    requires '\n' !in line
    ensures Load(line + "\n") == if Kept(Strip(line)) then [Strip(line)] else []
  {
    FileLinesOfOneLine(line);
    assert StripAll([line + "\n"]) == [Strip(line + "\n")];
    NewlineIsSpace();
    StripIgnoresTrailingSpace(line, "\n");
    var s := Strip(line);
    SelectOne(s);
  }

  /** A text cut at a line boundary loads to the entries of its two parts. */
  lemma LoadAppend(a: string, b: string)
    requires a == [] || a[|a| - 1] == '\n'
    ensures Load(a + b) == Load(a) + Load(b)
  {
    FileLinesAppend(a, b);
    var la, lb := FileLines(a), FileLines(b);
    StripAllAppend(la, lb);
    SelectAppend(StripAll(la), StripAll(lb));
  }

  /** Stripping line by line distributes over concatenation. */
  lemma StripAllAppend(x: seq<string>, y: seq<string>)
    ensures StripAll(x + y) == StripAll(x) + StripAll(y)
  {
    var l, r := StripAll(x + y), StripAll(x) + StripAll(y);
    assert |l| == |r|;
    forall k | 0 <= k < |l| ensures l[k] == r[k] {
      if k < |x| { assert (x + y)[k] == x[k]; } else { assert (x + y)[k] == y[k - |x|]; }
    }
  }

  /** For a list, `dump` writes one line per entry, the i-th being the entry
      stripped and terminated by '\n', provided no entry holds a '\n' other than
      in its surrounding whitespace. */
  lemma DumpWritesOneLinePerEntry(entries: seq<string>)
    requires forall k :: 0 <= k < |entries| ==> '\n' !in Strip(entries[k])
    ensures Dump(List(entries)).Ok?
    ensures var lines := FileLines(Dump(List(entries)).value);
      |lines| == |entries|
      && forall k :: 0 <= k < |entries| ==> lines[k] == Strip(entries[k]) + "\n"
  {
    var lines := WrittenLines(entries);
    forall k | 0 <= k < |lines| ensures IsFileLine(lines[k]) && EndsWithNewline(lines[k]) {
      var s := Strip(entries[k]);
      assert lines[k] == s + "\n";
      assert forall j :: 0 <= j < |s| ==> lines[k][j] == s[j];
    }
    FileLinesUnique(lines);
  }

  /** Reading back what `dump` wrote gives the stripped entries that are neither
      empty nor comments, in order. */
  lemma LoadAfterDump(entries: seq<string>)
    requires forall k :: 0 <= k < |entries| ==> '\n' !in Strip(entries[k])
    ensures Load(Dump(List(entries)).value) == Select(StripAll(entries))
  {
    DumpWritesOneLinePerEntry(entries);
    var lines := FileLines(Dump(List(entries)).value);
    NewlineIsSpace();
    assert AllSpace("\n");
    forall k | 0 <= k < |entries| ensures StripAll(lines)[k] == StripAll(entries)[k] {
      StripTrailing(Strip(entries[k]), "\n");
    }
    assert StripAll(lines) == StripAll(entries);
  }

  /** An entry `load` gives back unchanged: stripped, not empty, not a comment and
      holding no line terminator. */
  predicate Storable(entry: string) {
    Strip(entry) == entry && Kept(entry) && '\n' !in entry
  }

  /** Round trip: entries that can be stored are read back exactly as dumped. */
  lemma LoadDumpRoundTrip(entries: seq<string>)
    requires forall k :: 0 <= k < |entries| ==> Storable(entries[k])
    ensures Dump(List(entries)).Ok?
    ensures Load(Dump(List(entries)).value) == entries
  {
    LoadAfterDump(entries);
    assert StripAll(entries) == entries;
    SelectAllKept(entries);
  }

  /** `load` is idempotent through a second pass: dumping what was loaded and loading
      it again gives the same entries. */
  lemma LoadDumpLoad(text: string)
    ensures Dump(List(Load(text))).Ok?
    ensures Load(Dump(List(Load(text))).value) == Load(text)
  {
    var r := Load(text);
    forall k | 0 <= k < |r| ensures Storable(r[k]) {
      StripFixedPoint(r[k]);
    }
    LoadDumpRoundTrip(r);
  }

  // ---------------------------------------------------------------------------
  // Writing to a stream

  /** The text stream `dump` appends to; `written` is everything it holds. */
  class TextStream {
    var written: string

    constructor (initial: string)
      ensures written == initial
    {
      written := initial;
    }

    /** `writelines`: appends the lines one after another. */
    method WriteLines(lines: seq<string>)
      modifies this
      ensures written == old(written) + Concat(lines)
    {
      var i := 0;
      while i < |lines|
        invariant 0 <= i <= |lines|
        invariant written == old(written) + Concat(lines[..i])
      {
        ConcatAppend(lines[..i], [lines[i]]);
        assert lines[..i + 1] == lines[..i] + [lines[i]];
        assert Concat([lines[i]]) == lines[i] + Concat([]);
        written := written + lines[i];
        i := i + 1;
      }
      assert lines[..i] == lines;
    }
  }

  /** `dump` on a stream: a list is appended as `Dump` writes it; anything else is
      refused with the error and leaves the stream as it was. */
  method DumpTo(data: Data, fp: TextStream) returns (r: Result<()>)
    modifies fp
    ensures r.Err? <==> !data.List?
    ensures r.Err? ==> r.message == NotAListMessage && fp.written == old(fp.written)
    ensures r.Ok? ==> fp.written == old(fp.written) + Dump(data).value
  {
    if !data.List? {
      return Err(NotAListMessage);
    }
    fp.WriteLines(WrittenLines(data.entries));
    return Ok(());
  }
}
