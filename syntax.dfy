/**
 * Syntax errors met while importing test modules: class `Syntax`
 * (nosetests_json_extended/sink.py), which formats the message with a caret
 * under the offending column, and its dictionary image `Syntax.to_dict`.
 */
module SyntaxErrors {
  import opened Options
  import opened PyStr

  /**
   * What the sink reads from a Python `SyntaxError`: `filename`, `lineno`,
   * `offset` (1-based column, may be `None`), `text` (the source line, may be
   * `None`), the exception's class name as `kind`, and `str(error)` as `str`.
   */
  datatype SyntaxErrorInfo = SyntaxErrorInfo(filename: string, lineno: int, offset: Option<int>,
                                             text: Option<string>, kind: string, str: string)

  /** A stored syntax error: the fields copied at construction and the formatted message. */
  datatype Syntax = Syntax(filename: string, linenr: int, column: Option<int>, message: string)

  /** `{filename, linenr, column}`: the single traceback frame. */
  datatype Frame = Frame(filename: string, linenr: int, column: Option<int>)

  /** `{message, traceback}`. */
  datatype SyntaxErrorEntry = SyntaxErrorEntry(message: string, traceback: seq<Frame>)

  /** `{name, error}`. */
  datatype SyntaxDict = SyntaxDict(name: string, error: SyntaxErrorEntry)

  /** `ClassName: str(error)`, the line every message begins with. */
  function Header(e: SyntaxErrorInfo): (h: string)
    ensures e.kind <= h && h[|e.kind|..] == ": " + e.str
  {
    e.kind + ": " + e.str
  }

  /** `if error.text:` holds: a source line is present and not empty. */
  predicate HasSourceLine(e: SyntaxErrorInfo) {
    e.text.Some? && e.text.value != []
  }

  /** `if error.offset:` holds as well: a column is present and not zero. */
  predicate HasCaret(e: SyntaxErrorInfo) {
    HasSourceLine(e) && e.offset.Some? && e.offset.value != 0
  }

  /** `offset - nr_white_space - 1`, where the whitespace is counted on the right-stripped line. */
  function CaretPadding(text: string, offset: int): (pad: int)
    ensures pad < 0 <==> offset <= LeadingSpaces(RStrip(text))
  {
    offset - LeadingSpaces(RStrip(text)) - 1
  }

  /** `' ' * nr + '^'`: a negative `nr` gives no padding at all. */
  function CaretLine(pad: int): (r: string)
    ensures |r| == (if pad < 0 then 0 else pad) + 1
    ensures r[|r| - 1] == '^' && forall i :: 0 <= i < |r| - 1 ==> r[i] == ' '
  {
    var spaces := Spaces(pad);
    assert forall i :: 0 <= i < |spaces| ==> (spaces + "^")[i] == spaces[i];
    spaces + "^"
  }

  /**
   * The message built by `Syntax.__init__`. It starts with the header and is
   * the header alone exactly when there is no source line; the lines that
   * follow are described by MessageShowsSourceLine and MessageCaretLayout.
   */
  function SyntaxMessage(e: SyntaxErrorInfo): (m: string)
    ensures Header(e) <= m
    ensures m == Header(e) <==> !HasSourceLine(e)
  {
    if HasSourceLine(e) then Header(e) + "\n\n" + Strip(e.text.value) + CaretBlock(e) else Header(e)
  }

  /** The closing caret line with its newline when a non-zero column is known, and nothing otherwise. */
  function CaretBlock(e: SyntaxErrorInfo): (r: string)
    requires HasSourceLine(e)
    ensures r == [] <==> !HasCaret(e)
    ensures HasCaret(e) ==> r[0] == '\n' && r[|r| - 1] == '^'
  {
    if e.offset.Some? && e.offset.value != 0 then "\n" + CaretLine(CaretPadding(e.text.value, e.offset.value)) else ""
  }

  /**
   * With a source line, a blank line and the stripped source line follow the
   * header; without a non-zero column, nothing follows them.
   */
  lemma MessageShowsSourceLine(e: SyntaxErrorInfo)
    requires HasSourceLine(e)
    ensures var m := SyntaxMessage(e);
            var start := |Header(e)| + 2;
            var shown := Strip(e.text.value);
            start + |shown| <= |m| && m[start - 2..start] == "\n\n" && m[start..start + |shown|] == shown
            && (!HasCaret(e) ==> |m| == start + |shown|)
  {
    BlockLayout(Header(e), Strip(e.text.value), CaretBlock(e));
  }

  /** Where the pieces of `base + "\n\n" + shown + tail` sit. */
  lemma BlockLayout(base: string, shown: string, tail: string)
    ensures var m := base + "\n\n" + shown + tail;
            var start := |base| + 2;
            |m| == start + |shown| + |tail| && m[start - 2..start] == "\n\n" && m[start..start + |shown|] == shown
  {
    var m := base + "\n\n" + shown + tail;
    assert m[|base|..|base| + 2] == "\n\n" by {
      assert forall i :: |base| <= i < |base| + 2 ==> m[i] == '\n';
    }
    assert m[|base| + 2..|base| + 2 + |shown|] == shown;
  }

  /**
   * With a non-zero column, the message ends in a line of its own holding
   * `max(0, pad)` spaces and a caret.
   */
  lemma MessageCaretLayout(e: SyntaxErrorInfo)
    requires HasCaret(e)
    ensures var m := SyntaxMessage(e);
            var lineStart := |Header(e)| + 2 + |Strip(e.text.value)| + 1;
            var pad := CaretPadding(e.text.value, e.offset.value);
            |m| == lineStart + (if pad < 0 then 0 else pad) + 1 && m[lineStart - 1] == '\n'
            && m[|m| - 1] == '^' && forall i :: lineStart <= i < |m| - 1 ==> m[i] == ' '
  {
    var withSource := Header(e) + "\n\n" + Strip(e.text.value);
    var line := CaretLine(CaretPadding(e.text.value, e.offset.value));
    var m := withSource + ("\n" + line);
    assert forall i :: |withSource| + 1 <= i < |m| ==> m[i] == line[i - |withSource| - 1];
  }

  /**
   * When the column falls inside the non-blank part of the source line, the
   * caret sits, in its own line, at the column where the displayed (stripped)
   * source line shows the character at 1-based `offset` of the original text.
   */
  lemma CaretPointsAtOffendingCharacter(e: SyntaxErrorInfo)
    requires HasCaret(e)
    requires LeadingSpaces(RStrip(e.text.value)) < e.offset.value <= |RStrip(e.text.value)|
    ensures var m := SyntaxMessage(e);
            var sourceStart := |Header(e)| + 2;
            var shown := Strip(e.text.value);
            var col := |m| - 1 - (sourceStart + |shown| + 1);
            0 <= col < |shown| && m[|m| - 1] == '^' && m[sourceStart + col] == e.text.value[e.offset.value - 1]
  {
    var t := e.text.value;
    var r := RStrip(t);
    var lead := LeadingSpaces(r);
    var shown := Strip(t);
    assert shown == r[lead..];
    MessageShowsSourceLine(e);
    MessageCaretLayout(e);
    var col := e.offset.value - lead - 1;
    assert shown[col] == r[e.offset.value - 1] == t[e.offset.value - 1];
  }

  /**
   * A column at or before the end of the line's indentation gives a negative
   * padding, and Python's `' ' * nr` is then empty: the caret line is `^` alone.
   */
  lemma CaretClampedAtLineStart(e: SyntaxErrorInfo)
    requires HasCaret(e)
    requires e.offset.value <= LeadingSpaces(RStrip(e.text.value))
    ensures SyntaxMessage(e) == Header(e) + "\n\n" + Strip(e.text.value) + "\n^"
  {
    var pad := CaretPadding(e.text.value, e.offset.value);
    assert CaretLine(pad) == "^" by { assert Spaces(pad) == []; }
    assert CaretBlock(e) == "\n^";
  }

  /** `Syntax.__init__`: location fields copied, message formatted once, at construction. */
  function NewSyntax(e: SyntaxErrorInfo): (s: Syntax)
    ensures s.filename == e.filename && s.linenr == e.lineno && s.column == e.offset
    ensures Header(e) <= s.message
  {
    Syntax(e.filename, e.lineno, e.offset, SyntaxMessage(e))
  }

  /** `Syntax.to_dict`: named after the file, with a one-frame traceback. */
  function SyntaxToDict(s: Syntax): (d: SyntaxDict)
    ensures d.name == s.filename && d.error.message == s.message
    ensures |d.error.traceback| == 1
    ensures d.error.traceback[0] == Frame(s.filename, s.linenr, s.column)
  {
    var tb := [Frame(s.filename, s.linenr, s.column)];
    SyntaxDict(s.filename, SyntaxErrorEntry(s.message, tb))
  }

  /** The dict emitted for a syntax error carries its file, line and column and its formatted message. */
  lemma SyntaxDictOfError(e: SyntaxErrorInfo)
    ensures var d := SyntaxToDict(NewSyntax(e));
            d.name == e.filename && d.error.traceback == [Frame(e.filename, e.lineno, e.offset)]
            && d.error.message == SyntaxMessage(e)
  {
  }
}
