/** The input/output module: the line and character cursor over the source
    text, and the listing, which echoes every line read and annotates every
    diagnostic. The source dispatcher's ReadLine is the sequence `source` of
    lines, read front to back, with null when none is left; its WriteLine is
    an append to `listing`, which holds each line written as a ListingLine
    whose text is given by Render. */
module Io {
  import opened Wrappers
  import opened Text
  import opened Structures

  /** ListCurrentLine's text: a blank, the line number right-aligned in three
      columns, two blanks, the line. */
  function EchoLine(lineNumber: int, line: string): string {
    EchoText(PadLeft(IntToString(lineNumber), 3, ' '), line)
  }

  /** The echoed line around an already rendered number field. */
  function EchoText(number: string, line: string): string {
    " " + number + "  " + line
  }

  /** The first line ListError writes: the error number zero-padded to three
      digits between asterisks, a blank, a caret right-aligned at the error's
      position, then the code. */
  function ErrorMarker(errorNumber: int, error: Error): string
    requires error.position >= 0
  {
    MarkerLine(PadLeft(IntToString(errorNumber), 3, '0'), error.position, IntToString(error.code))
  }

  /** The marker line around an already rendered number field and code. */
  function MarkerLine(number: string, position: int, code: string): string
    requires position >= 0
  {
    "*" + number + "* " + PadLeft("^", position, ' ') + "ошибка код " + code
  }

  /** The second line ListError writes: five asterisks and the description
      of the code. */
  function ErrorDescriptionLine(description: string): string {
    "***** " + description
  }

  /** One line the module writes to the listing, before it is rendered. */
  datatype ListingLine =
    | Echo(lineNumber: int, text: string)
    | Marker(errorNumber: int, error: Error)
    | Description(text: string)

  /** The text WriteLine receives for a listing line. */
  function Render(l: ListingLine): string
    requires l.Marker? ==> l.error.position >= 0
  {
    match l
    case Echo(n, text) => EchoLine(n, text)
    case Marker(n, error) => ErrorMarker(n, error)
    case Description(text) => ErrorDescriptionLine(text)
  }

  /** A number below a thousand has at most three digits. */
  lemma ShortNumber(n: int)
    requires 0 <= n < 1000
    ensures |IntToString(n)| <= 3
  {
    if n >= 10 {
      assert NatToString(n) == NatToString(n / 10) + [DigitChar(n % 10)];
      if n / 10 >= 10 {
        assert NatToString(n / 10) == NatToString(n / 100) + [DigitChar(n / 10 % 10)];
      }
    }
  }

  /** For line numbers below a thousand the echoed line starts after a prefix
      of six characters, so column `p` (counted from one) of the source line
      is character 5 + p of the echo. */
  lemma EchoLayout(lineNumber: int, line: string)
    requires 0 <= lineNumber < 1000
    ensures |EchoLine(lineNumber, line)| == 6 + |line|
    ensures EchoLine(lineNumber, line)[6..] == line
  {
    ShortNumber(lineNumber);
    EchoTextLayout(PadLeft(IntToString(lineNumber), 3, ' '), line);
  }

  /** With a three-character number field the echo is six characters, then
      the line. */
  lemma EchoTextLayout(number: string, line: string)
    requires |number| == 3
    ensures |EchoText(number, line)| == 6 + |line|
    ensures EchoText(number, line)[6..] == line
  {
    assert EchoText(number, line) == (" " + number + "  ") + line;
  }

  /** A six-character head, then a caret field of width w ending in the caret
      and otherwise blank: the caret is character 5 + w, blanks before it. */
  lemma CaretField(m: string, head: string, caret: string, tail: string, w: int)
    requires m == head + caret + tail
    requires |head| == 6 && |caret| == w >= 1 && caret[w - 1] == '^'
    requires forall k | 0 <= k < w - 1 :: caret[k] == ' '
    ensures |m| > 5 + w && m[5 + w] == '^' && forall k | 6 <= k < 5 + w :: m[k] == ' '
  {
    forall k | 6 <= k < 5 + w
      ensures m[k] == ' '
    {
      assert m[k] == caret[k - 6];
    }
  }

  /** The width of the caret field for an error at position p: p, but at
      least the caret itself. */
  function CaretWidth(p: int): int {
    if p == 0 then 1 else p
  }

  /** A caret right-aligned at position p is the last character of its
      field, and blanks fill the rest. */
  lemma CaretPad(p: int)
    requires p >= 0
    ensures var caret := PadLeft("^", p, ' ');
      |caret| == CaretWidth(p) && caret[CaretWidth(p) - 1] == '^' &&
      forall k | 0 <= k < CaretWidth(p) - 1 :: caret[k] == ' '
  {
    var caret := PadLeft("^", p, ' ');
    var w := CaretWidth(p);
    var last := caret[w - 1..];
    assert last == "^";
    assert caret[w - 1] == last[0];
  }

  /** With a three-character number field the marker line has six
      characters before the caret field; the caret at position p >= 1 is
      character 5 + p, at position 0 character 6, and only blanks lie
      between. */
  lemma MarkerLineLayout(number: string, position: int, code: string)
    requires |number| == 3 && position >= 0
    ensures var m := MarkerLine(number, position, code);
      var c := 5 + CaretWidth(position);
      |m| > c && m[c] == '^' && forall k | 6 <= k < c :: m[k] == ' '
  {
    var head := "*" + number + "* ";
    var caret := PadLeft("^", position, ' ');
    var tail := "ошибка код " + code;
    assert MarkerLine(number, position, code) == head + caret + tail;
    CaretPad(position);
    CaretField(MarkerLine(number, position, code), head, caret, tail, CaretWidth(position));
  }

  /** For error numbers below a thousand the number field is not widened, so
      the caret of an error at position p >= 1 is character 5 + p of the
      marker line, at position 0 character 6, with only blanks before it. */
  lemma MarkerLayout(errorNumber: int, error: Error)
    requires 0 <= errorNumber < 1000 && error.position >= 0
    ensures var m := ErrorMarker(errorNumber, error);
      var c := 5 + CaretWidth(error.position);
      |m| > c && m[c] == '^' && forall k | 6 <= k < c :: m[k] == ' '
  {
    ShortNumber(errorNumber);
    MarkerLineLayout(PadLeft(IntToString(errorNumber), 3, '0'), error.position, IntToString(error.code));
  }

  /** The caret of an error at position p stands right under column p of the
      echoed line, whatever the line and error counters (below a thousand). */
  lemma CaretUnderColumn(lineNumber: int, line: string, errorNumber: int, error: Error)
    requires 0 <= lineNumber < 1000 && 0 <= errorNumber < 1000
    requires 1 <= error.position <= |line|
    ensures EchoLine(lineNumber, line)[5 + error.position] == line[error.position - 1]
    ensures ErrorMarker(errorNumber, error)[5 + error.position] == '^'
  {
    ShortNumber(lineNumber);
    ShortNumber(errorNumber);
    CaretUnderText(PadLeft(IntToString(lineNumber), 3, ' '), line,
                   PadLeft(IntToString(errorNumber), 3, '0'), error.position, IntToString(error.code));
  }

  /** CaretUnderColumn on rendered number fields. */
  lemma CaretUnderText(lineField: string, line: string, errorField: string, position: int, code: string)
    requires |lineField| == 3 && |errorField| == 3
    requires 1 <= position <= |line|
    ensures EchoText(lineField, line)[5 + position] == line[position - 1]
    ensures MarkerLine(errorField, position, code)[5 + position] == '^'
  {
    EchoTextLayout(lineField, line);
    MarkerLineLayout(errorField, position, code);
    var echo := EchoText(lineField, line);
    assert echo[5 + position] == echo[6..][position - 1];
  }

  /** What is left to read from a list of lines: every character and one end
      of line per line. */
  function Pending(lines: seq<string>): nat {
    if lines == [] then 0 else |lines[0]| + 1 + Pending(lines[1..])
  }

  class IoModule {
    const source: seq<string>
    ghost const firstLineNumber: int
    var read: nat
    var line: Option<string>
    var charNumber: nat
    var ch: char
    var lineNumber: int
    var errorNumber: int
    var listing: seq<ListingLine>

    /** `line` is the last line read, or None once the source is exhausted;
        the line counter has advanced once per line read; the character
        cursor lies within the current line. */
    ghost predicate Valid()
      reads this
    {
      LinesValid() && (line.Some? ==> charNumber <= |line.value|)
    }

    /** Valid without the character cursor, which ReadNextLine leaves alone. */
    ghost predicate LinesValid()
      reads this
    {
      read <= |source| && lineNumber == firstLineNumber + read &&
      (line.Some? ==> 1 <= read && line.value == source[read - 1]) &&
      (line.None? ==> read == |source|)
    }

    /** The characters NextChar can still deliver before it returns '\0'. */
    ghost function Remaining(): nat
      reads this
      requires Valid()
    {
      if line.None? then 0 else |line.value| - charNumber + Pending(source[read..]) + 1
    }

    /** The module's construction reads the first line. The counters'
        starting values belong to the context and are given. */
    constructor (source: seq<string>, lineNumber: int, errorNumber: int)
      ensures Valid() && this.source == source && charNumber == 0 && this.errorNumber == errorNumber
      ensures source == [] ==> line == None && read == 0 && this.lineNumber == lineNumber && listing == []
      ensures source != [] ==>
        line == Some(source[0]) && read == 1 && this.lineNumber == lineNumber + 1 &&
        listing == [Echo(lineNumber, source[0])]
    {
      this.source := source;
      firstLineNumber := lineNumber;
      read := 0;
      line := None;
      charNumber := 0;
      ch := '\0';
      this.lineNumber := lineNumber;
      this.errorNumber := errorNumber;
      listing := [];
      new;
      ReadNextLine();
    }

    /** ListCurrentLine: echo the current line under the line number, which
        then advances. */
    method ListCurrentLine()
      requires line.Some?
      modifies this`listing, this`lineNumber
      ensures listing == old(listing) + [Echo(old(lineNumber), line.value)]
      ensures lineNumber == old(lineNumber) + 1
    {
      listing := listing + [Echo(lineNumber, line.value)];
      lineNumber := lineNumber + 1;
    }

    /** ReadNextLine: the next line of the source becomes current and is
        echoed; when none is left the current line becomes None and nothing
        is echoed or counted. */
    method ReadNextLine()
      requires read <= |source| && lineNumber == firstLineNumber + read
      modifies this`read, this`line, this`listing, this`lineNumber
      ensures LinesValid()
      ensures old(read) < |source| ==>
        read == old(read) + 1 && line == Some(source[old(read)]) && lineNumber == old(lineNumber) + 1 &&
        listing == old(listing) + [Echo(old(lineNumber), source[old(read)])]
      ensures old(read) == |source| ==>
        read == old(read) && line == None && lineNumber == old(lineNumber) && listing == old(listing)
      ensures charNumber == old(charNumber)
    {
      if read < |source| {
        line := Some(source[read]);
        read := read + 1;
      } else {
        line := None;
      }
      if line.Some? {
        ListCurrentLine();
      }
    }

    /** ListError: the caret line and the description line of one
        diagnostic; the error counter then advances. A negative position
        throws in PadLeft and is excluded. */
    method ListError(error: Error, description: string)
      requires error.position >= 0
      modifies this`listing, this`errorNumber
      ensures listing == old(listing) + [Marker(old(errorNumber), error), Description(description)]
      ensures errorNumber == old(errorNumber) + 1
    {
      listing := listing + [Marker(errorNumber, error), Description(description)];
      errorNumber := errorNumber + 1;
    }

    /** PeekNextChar: the character under the cursor, or '\n' past the end
        of the line. A null line throws and is excluded. */
    function PeekNextChar(): (c: char)
      requires line.Some?
      reads this
      ensures charNumber < |line.value| ==> c == line.value[charNumber]
      ensures charNumber >= |line.value| ==> c == '\n'
    {
      if charNumber < |line.value| then line.value[charNumber] else '\n'
    }

    /** PeekNextNextChar: the character after the one under the cursor, or
        '\n' when that lies past the end of the line. */
    function PeekNextNextChar(): (c: char)
      requires line.Some?
      reads this
      ensures charNumber + 1 < |line.value| ==> c == line.value[charNumber + 1]
      ensures charNumber + 1 >= |line.value| ==> c == '\n'
    {
      if charNumber + 1 < |line.value| then line.value[charNumber + 1] else '\n'
    }

    /** NextChar: inside a line, the character under the cursor, which then
        moves one place; at the end of a line the next line is read, the
        cursor goes back to its start and the result is '\n', or '\0' when
        the source is exhausted. A null line throws and is excluded. */
    method NextChar() returns (c: char)
      requires Valid() && line.Some?
      modifies this`read, this`line, this`listing, this`lineNumber, this`charNumber, this`ch
      ensures Valid() && c == ch
      ensures old(charNumber) < |old(line).value| ==>
        c == old(PeekNextChar()) && charNumber == old(charNumber) + 1 &&
        line == old(line) && read == old(read) && listing == old(listing) && lineNumber == old(lineNumber) &&
        PeekNextChar() == old(PeekNextNextChar())
      ensures old(charNumber) == |old(line).value| ==>
        charNumber == 0 &&
        (old(read) < |source| ==>
          c == '\n' && line == Some(source[old(read)]) && read == old(read) + 1 &&
          lineNumber == old(lineNumber) + 1 && listing == old(listing) + [Echo(old(lineNumber), source[old(read)])]) &&
        (old(read) == |source| ==>
          c == '\0' && line == None && read == old(read) && lineNumber == old(lineNumber) && listing == old(listing))
      ensures Remaining() < old(Remaining())
    {
      if charNumber != |line.value| {
        ch := line.value[charNumber];
        charNumber := charNumber + 1;
      } else {
        ghost var rest := source[read..];
        ReadNextLine();
        charNumber := 0;
        ch := if line.None? then '\0' else '\n';
        if line.Some? {
          assert rest[0] == line.value && rest[1..] == source[read..];
        }
      }
      c := ch;
    }
  }
}
