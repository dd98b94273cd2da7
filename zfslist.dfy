// Reading the snapshot list printed by `zfs list -Hp -t snapshot -o
// name,creation`: one line per snapshot holding the name and the creation
// instant in decimal Unix seconds, separated by white space.
module ZfsList {
  import opened Snapshots

  datatype Option<T> = None | Some(value: T)

  datatype Result<T, E> = Ok(value: T) | Err(error: E)

  const Int64Min: int := -0x8000_0000_0000_0000
  const Int64Max: int := 0x7fff_ffff_ffff_ffff

  // ---------------------------------------------------------------------
  // Splitting into lines (strings.Split with the separator "\n")
  // ---------------------------------------------------------------------

  /** The pieces joined back with a newline between neighbours. */
  function JoinLines(lines: seq<string>): string
  {
    if lines == [] then []
    else if |lines| == 1 then lines[0]
    else lines[0] + "\n" + JoinLines(lines[1..])
  }

  /** The pieces of `s` between newlines; an input without a newline is one
      piece, and the empty input is one empty piece. */
  function SplitLines(s: string): (lines: seq<string>)
    ensures |lines| >= 1
    ensures forall k :: 0 <= k < |lines| ==> '\n' !in lines[k]
    ensures JoinLines(lines) == s
    decreases |s|
  {
    if s == [] then [[]]
    else if s[0] == '\n' then
      var rest := SplitLines(s[1..]);
      assert s == "\n" + s[1..];
      [[]] + rest
    else
      var rest := SplitLines(s[1..]);
      var lines := [[s[0]] + rest[0]] + rest[1..];
      assert lines[1..] == rest[1..];
      assert |rest| > 1 ==> JoinLines(rest) == rest[0] + "\n" + JoinLines(rest[1..]);
      assert s == [s[0]] + s[1..];
      lines
  }

  /** A line without a newline, a newline and the rest split into that line
      followed by the pieces of the rest. */
  lemma {:induction false} SplitAfterLine(line: string, rest: string)
    requires '\n' !in line
    ensures SplitLines(line + "\n" + rest) == [line] + SplitLines(rest)
  {
    if line == [] {
      assert line + "\n" + rest == "\n" + rest;
      assert ("\n" + rest)[1..] == rest;
    } else {
      var s := line + "\n" + rest;
      assert s[0] == line[0] && line[0] != '\n';
      assert s[1..] == line[1..] + "\n" + rest;
      SplitAfterLine(line[1..], rest);
      var tail := SplitLines(s[1..]);
      assert tail == [line[1..]] + SplitLines(rest);
      assert tail[0] == line[1..] && tail[1..] == SplitLines(rest);
      assert SplitLines(s) == [[s[0]] + tail[0]] + tail[1..];
      assert [line[0]] + line[1..] == line;
    }
  }

  /** Splitting undoes joining: pieces without newlines come back unchanged. */
  lemma {:induction false} SplitJoin(lines: seq<string>)
    requires |lines| >= 1
    requires forall k :: 0 <= k < |lines| ==> '\n' !in lines[k]
    ensures SplitLines(JoinLines(lines)) == lines
  {
    if |lines| == 1 {
      SplitNoNewline(lines[0]);
    } else {
      SplitJoin(lines[1..]);
      SplitAfterLine(lines[0], JoinLines(lines[1..]));
      assert lines == [lines[0]] + lines[1..];
    }
  }

  /** A text without a newline is a single piece. */
  lemma {:induction false} SplitNoNewline(s: string)
    requires '\n' !in s
    ensures SplitLines(s) == [s]
  {
    if s != [] {
      SplitNoNewline(s[1..]);
      assert [s[0]] + s[1..] == s;
    }
  }

  // ---------------------------------------------------------------------
  // Splitting a line into fields (strings.Fields)
  // ---------------------------------------------------------------------

  /** White space as Go's unicode.IsSpace defines it. */
  predicate IsSpace(c: char)
  {
    || c == '\t' || c == '\n' || c == '\U{000B}' || c == '\U{000C}' || c == '\r' || c == ' '
    || c == '\U{0085}' || c == '\U{00A0}' || c == '\U{1680}'
    || ('\U{2000}' <= c <= '\U{200A}')
    || c == '\U{2028}' || c == '\U{2029}' || c == '\U{202F}' || c == '\U{205F}' || c == '\U{3000}'
  }

  /** A non-empty run of characters none of which is white space. */
  predicate IsWord(w: string)
  {
    w != [] && forall k :: 0 <= k < |w| ==> !IsSpace(w[k])
  }

  /** The length of the white-space-free prefix of `s`. */
  function WordLength(s: string): (n: nat)
    ensures n <= |s|
    ensures forall k :: 0 <= k < n ==> !IsSpace(s[k])
    ensures n < |s| ==> IsSpace(s[n])
  {
    if s == [] || IsSpace(s[0]) then 0 else 1 + WordLength(s[1..])
  }

  /** The maximal runs of non-white-space characters of `s`, in order. */
  function Fields(s: string): (fields: seq<string>)
    ensures forall k :: 0 <= k < |fields| ==> IsWord(fields[k])
    decreases |s|
  {
    if s == [] then []
    else if IsSpace(s[0]) then Fields(s[1..])
    else
      var n := WordLength(s);
      [s[..n]] + Fields(s[n..])
  }

  /** The white-space-free prefix of a word followed by white space is the word. */
  lemma {:induction false} WordLengthOfWord(w: string, rest: string)
    requires IsWord(w)
    requires rest == [] || IsSpace(rest[0])
    ensures WordLength(w + rest) == |w|
  {
    if |w| > 1 {
      WordLengthOfWord(w[1..], rest);
      assert (w + rest)[1..] == w[1..] + rest;
    } else {
      assert (w + rest)[1..] == rest;
    }
  }

  /** A word followed by one white-space character and more text is a field
      in front of the fields of that text. */
  lemma FieldsOfWord(w: string, sep: char, rest: string)
    requires IsWord(w) && IsSpace(sep)
    ensures Fields(w + [sep] + rest) == [w] + Fields(rest)
  {
    var s := w + [sep] + rest;
    WordLengthOfWord(w, [sep] + rest);
    assert s == w + ([sep] + rest);
    assert s[..|w|] == w;
    assert s[|w|..] == [sep] + rest;
    assert ([sep] + rest)[1..] == rest;
  }

  /** A word on its own is its only field. */
  lemma FieldsOfLoneWord(w: string)
    requires IsWord(w)
    ensures Fields(w) == [w]
  {
    WordLengthOfWord(w, []);
    assert w + [] == w;
    assert w[|w|..] == [];
  }

  // ---------------------------------------------------------------------
  // Decimal integers (strconv.ParseInt with base 10 and 64 bits)
  // ---------------------------------------------------------------------

  predicate IsDigit(c: char)
  {
    '0' <= c <= '9'
  }

  predicate AllDigits(s: string)
  {
    forall k :: 0 <= k < |s| ==> IsDigit(s[k])
  }

  /** The value of a string of decimal digits. */
  function DigitsValue(ds: string): nat
    requires AllDigits(ds)
  {
    if ds == [] then 0
    else 10 * DigitsValue(ds[..|ds| - 1]) + (ds[|ds| - 1] as int - '0' as int)
  }

  /** strconv.ParseInt(s, 10, 64): an optional sign followed by at least one
      decimal digit, whose value fits in 64 bits; anything else is an error. */
  function ParseInt64(s: string): (r: Option<int>)
    ensures r.Some? ==> Int64Min <= r.value <= Int64Max
  {
    if s == [] then None
    else
      var negative := s[0] == '-';
      var digits := if s[0] == '+' || s[0] == '-' then s[1..] else s;
      if digits == [] || !AllDigits(digits) then None
      else
        var v: int := if negative then -(DigitsValue(digits) as int) else DigitsValue(digits);
        if Int64Min <= v <= Int64Max then Some(v) else None
  }

  /** The decimal digits of a natural number, most significant first. */
  function DecimalDigits(n: nat): (ds: string)
    ensures ds != [] && AllDigits(ds)
    ensures DigitsValue(ds) == n
  {
    if n < 10 then
      var ds := [('0' as int + n) as char];
      assert ds[..0] == [];
      ds
    else
      var prefix := DecimalDigits(n / 10);
      var ds := prefix + [('0' as int + n % 10) as char];
      assert ds[..|ds| - 1] == prefix;
      ds
  }

  /** The decimal text of an integer, as strconv.FormatInt with base 10
      writes it. */
  function FormatInt(v: int): string
  {
    if v < 0 then "-" + DecimalDigits(-v) else DecimalDigits(v)
  }

  /** Parsing a formatted 64-bit integer gives it back. */
  lemma ParseFormatInt(v: int)
    requires Int64Min <= v <= Int64Max
    ensures ParseInt64(FormatInt(v)) == Some(v)
  {
    if v < 0 {
      assert ("-" + DecimalDigits(-v))[1..] == DecimalDigits(-v);
    }
  }

  /** The decimal text of an integer is a word. */
  lemma FormatIntIsWord(v: int)
    ensures IsWord(FormatInt(v))
  {
    var ds := if v < 0 then DecimalDigits(-v) else DecimalDigits(v);
    assert forall k :: 0 <= k < |ds| ==> !IsSpace(ds[k]);
  }

  // ---------------------------------------------------------------------
  // The loop of getSnapshots
  // ---------------------------------------------------------------------

  /** Go's run-time panic when a line has fewer fields than the loop reads:
      the index read and the number of fields there were. */
  datatype IndexOutOfRange = IndexOutOfRange(index: nat, length: nat)

  /** What the loop does with one line. */
  datatype LineOutcome =
    | Blank
    | BadEpoch
    | Parsed(snapshot: Snapshot)
    | Panic(failure: IndexOutOfRange)

  /** One line: empty lines are skipped; the first field is the name and the
      second the creation instant; a line whose second field is not a 64-bit
      decimal integer is skipped; a line with fewer than two fields panics. */
  function ParseLine(line: string): (r: LineOutcome)
    ensures r.Blank? <==> line == []
    ensures r.Panic? <==> line != [] && |Fields(line)| < 2
    ensures r.Panic? ==> r.failure.index == r.failure.length == |Fields(line)|
    ensures r.Parsed? ==> IsWord(r.snapshot.name) && Int64Min <= r.snapshot.creation <= Int64Max
  {
    if line == [] then Blank
    else
      var fields := Fields(line);
      if |fields| == 0 then Panic(IndexOutOfRange(0, 0))
      else if |fields| == 1 then Panic(IndexOutOfRange(1, 1))
      else
        match ParseInt64(fields[1])
        case None => BadEpoch
        case Some(epoch) => Parsed(Snapshot(fields[0], epoch))
  }

  /** The snapshots read from a list of lines, in order, or the panic of the
      first line that has too few fields. */
  function ParseLines(lines: seq<string>): (r: Result<seq<Snapshot>, IndexOutOfRange>)
    ensures r.Ok? ==> |r.value| <= |lines|
    ensures r.Err? ==> r.error.index == r.error.length <= 1
  {
    if lines == [] then Ok([])
    else
      match ParseLines(lines[..|lines| - 1])
      case Err(e) => Err(e)
      case Ok(snapshots) =>
        match ParseLine(lines[|lines| - 1])
        case Parsed(x) => Ok(snapshots + [x])
        case Panic(e) => Err(e)
        case _ => Ok(snapshots)
  }

  /** Once a line has panicked, later lines change nothing. */
  lemma {:induction false} ParseLinesPanicStops(lines: seq<string>, i: nat)
    requires i <= |lines| && ParseLines(lines[..i]).Err?
    ensures ParseLines(lines) == ParseLines(lines[..i])
  {
    if i < |lines| {
      var p := lines[..|lines| - 1];
      assert p[..i] == lines[..i];
      ParseLinesPanicStops(p, i);
    } else {
      assert lines[..i] == lines;
    }
  }

  /** Reading two blocks of lines one after the other gives the snapshots of
      the first block followed by those of the second, in order. */
  lemma {:induction false} ParseLinesAppend(a: seq<string>, b: seq<string>)
    requires ParseLines(a).Ok?
    ensures ParseLines(a + b) ==
      match ParseLines(b)
      case Ok(rb) => Ok(ParseLines(a).value + rb)
      case Err(e) => Err(e)
  {
    if b == [] {
      assert a + b == a;
      assert ParseLines(a).value + [] == ParseLines(a).value;
    } else {
      var q := b[..|b| - 1];
      ParseLinesAppend(a, q);
      assert (a + b)[..|a + b| - 1] == a + q;
      assert (a + b)[|a + b| - 1] == b[|b| - 1];
      if ParseLines(q).Ok? {
        var ra, rq := ParseLines(a).value, ParseLines(q).value;
        match ParseLine(b[|b| - 1])
        case Parsed(x) => assert ra + rq + [x] == ra + (rq + [x]);
        case _ =>
      }
    }
  }

  /** One more line continues the parse of the lines before it. */
  lemma ParseLinesSnoc(lines: seq<string>, i: nat)
    requires i < |lines| && ParseLines(lines[..i]).Ok?
    ensures ParseLines(lines[..i + 1]) ==
      match ParseLine(lines[i])
      case Parsed(x) => Ok(ParseLines(lines[..i]).value + [x])
      case Panic(e) => Err(e)
      case _ => ParseLines(lines[..i])
  {
    assert lines[..i + 1][..i] == lines[..i];
  }

  /** What getSnapshots yields for the output of `zfs list`, where `None`
      stands for a failed command. */
  function Enumerated(output: Option<string>): Result<seq<Snapshot>, IndexOutOfRange>
  {
    match output
    case None => Ok([])
    case Some(text) => ParseLines(SplitLines(text))
  }

  /** The line-parsing loop of getSnapshots (cmd/retention.go); a failed
      `zfs list` is passed in as `None`. */
  method GetSnapshots(output: Option<string>) returns (r: Result<seq<Snapshot>, IndexOutOfRange>)
    ensures r == Enumerated(output)
  {
    if output.None? {
      return Ok([]);
    }
    var snapshotLines := SplitLines(output.value);
    var snapshots: seq<Snapshot> := [];
    for i := 0 to |snapshotLines|
      invariant ParseLines(snapshotLines[..i]) == Ok(snapshots)
    {
      var snapshotLine := snapshotLines[i];
      ParseLinesSnoc(snapshotLines, i);
      if snapshotLine == "" {
        continue;
      }
      var fields := Fields(snapshotLine);
      if |fields| == 0 {
        ParseLinesPanicStops(snapshotLines, i + 1);
        return Err(IndexOutOfRange(0, 0));
      }
      if |fields| == 1 {
        ParseLinesPanicStops(snapshotLines, i + 1);
        return Err(IndexOutOfRange(1, 1));
      }
      var name := fields[0];
      var epochStr := fields[1];
      var epoch := ParseInt64(epochStr);
      if epoch.None? {
        continue;
      }
      snapshots := snapshots + [Snapshot(name, epoch.value)];
    }
    assert snapshotLines[..|snapshotLines|] == snapshotLines;
    return Ok(snapshots);
  }

  /** Every snapshot read has a non-empty name free of white space and a
      creation instant that fits in 64 bits. */
  lemma {:induction false} ParsedSnapshotsWellFormed(lines: seq<string>)
    ensures ParseLines(lines).Ok? ==>
      forall x :: x in ParseLines(lines).value ==> IsWord(x.name) && Int64Min <= x.creation <= Int64Max
  {
    if lines != [] {
      ParsedSnapshotsWellFormed(lines[..|lines| - 1]);
    }
  }

  // ---------------------------------------------------------------------
  // The listing format, as `zfs list -Hp -o name,creation` prints it
  // ---------------------------------------------------------------------

  /** One line of the listing: the name, a tab and the decimal instant. */
  function RecordLine(x: Snapshot): string
  {
    x.name + "\t" + FormatInt(x.creation)
  }

  /** The listing of a list of snapshots, every line ending in a newline. */
  function Listing(snapshots: seq<Snapshot>): string
  {
    if snapshots == [] then []
    else RecordLine(snapshots[0]) + "\n" + Listing(snapshots[1..])
  }

  /** The lines of the listing, one per snapshot. */
  function RecordLines(snapshots: seq<Snapshot>): seq<string>
  {
    if snapshots == [] then []
    else [RecordLine(snapshots[0])] + RecordLines(snapshots[1..])
  }

  /** A snapshot whose listing line reads back as itself: a non-empty name
      free of white space and a creation instant that fits in 64 bits. */
  predicate Listable(x: Snapshot)
  {
    IsWord(x.name) && Int64Min <= x.creation <= Int64Max
  }

  /** The part of the line after the space: two fields. */
  lemma FieldsAfterSpace()
    ensures Fields("b\t5") == ["b", "5"]
  {
    assert "b\t5" == "b" + ['\t'] + "5";
    assert IsWord("5") && IsWord("b");
    FieldsOfLoneWord("5");
    FieldsOfWord("b", '\t', "5");
  }

  /** A name with a space in it splits the line into three fields. */
  lemma FieldsOfSpacedName()
    ensures Fields("p@a b\t5") == ["p@a", "b", "5"]
  {
    assert "p@a b\t5" == "p@a" + [' '] + "b\t5";
    assert IsWord("p@a");
    FieldsAfterSpace();
    FieldsOfWord("p@a", ' ', "b\t5");
  }

  /** A name with a space in it splits the line into three fields; the second
      is not a number, so the line is skipped. */
  lemma SpacedNameSkipped()
    ensures ParseLine("p@a b\t5") == BadEpoch
  {
    FieldsOfSpacedName();
    assert "b"[0] == 'b' && !IsDigit('b');
    assert ParseInt64("b") == None;
  }

  /** A line whose name holds one space: name, space, word, tab, epoch. */
  function SpacedLine(name: string, word: string, epoch: string): string
  {
    name + [' '] + word + ['\t'] + epoch
  }

  /** Such a line splits into three fields: the part of the name before the
      space, the part after it, and the epoch. */
  lemma FieldsOfSpacedLine(name: string, word: string, epoch: string)
    requires IsWord(name) && IsWord(word) && IsWord(epoch)
    ensures Fields(SpacedLine(name, word, epoch)) == [name, word, epoch]
  {
    assert IsSpace(' ') && IsSpace('\t');
    FieldsOfLoneWord(epoch);
    FieldsOfWord(word, '\t', epoch);
    assert SpacedLine(name, word, epoch) == name + [' '] + (word + ['\t'] + epoch);
    FieldsOfWord(name, ' ', word + ['\t'] + epoch);
  }

  /** A name holding a space is read by its first two words: the line is
      skipped when the word after the space is not a 64-bit decimal, and
      otherwise read as a snapshot named by the part before the space whose
      creation instant is that word. The real epoch is never looked at. */
  lemma SpacedNameMisread(name: string, word: string, epoch: string)
    requires IsWord(name) && IsWord(word) && IsWord(epoch)
    ensures ParseInt64(word).None? ==> ParseLine(SpacedLine(name, word, epoch)) == BadEpoch
    ensures ParseInt64(word).Some? ==>
      ParseLine(SpacedLine(name, word, epoch)) == Parsed(Snapshot(name, ParseInt64(word).value))
  {
    FieldsOfSpacedLine(name, word, epoch);
  }

  /** An instance: the snapshot `p@a 7` created at 5 is read as a snapshot
      `p@a` created at 7. */
  lemma SpacedNameNumeric()
    ensures ParseLine("p@a 7\t5") == Parsed(Snapshot("p@a", 7))
  {
    assert "p@a 7\t5" == SpacedLine("p@a", "7", "5");
    assert IsWord("p@a") && IsWord("7") && IsWord("5");
    assert "7"[0] == '7' && IsDigit('7');
    assert ParseInt64("7") == Some(7);
    SpacedNameMisread("p@a", "7", "5");
  }

  /** The line of a listable snapshot reads back as that snapshot. */
  lemma ParseRecordLine(x: Snapshot)
    requires Listable(x)
    ensures ParseLine(RecordLine(x)) == Parsed(x)
  {
    FormatIntIsWord(x.creation);
    FieldsOfWord(x.name, '\t', FormatInt(x.creation));
    FieldsOfLoneWord(FormatInt(x.creation));
    ParseFormatInt(x.creation);
    assert RecordLine(x) == x.name + ['\t'] + FormatInt(x.creation);
  }

  /** The line of a listable snapshot holds no newline. */
  lemma RecordLineHasNoNewline(x: Snapshot)
    requires Listable(x)
    ensures '\n' !in RecordLine(x)
  {
    var line := RecordLine(x);
    var digits := FormatInt(x.creation);
    FormatIntIsWord(x.creation);
    forall k | 0 <= k < |line| ensures line[k] != '\n' {
      if k < |x.name| {
        assert line[k] == x.name[k];
      } else if k > |x.name| {
        assert line[k] == digits[k - |x.name| - 1];
      }
    }
  }

  /** The pieces of the listing are its lines and the empty piece after the
      final newline. */
  lemma {:induction false} SplitListing(snapshots: seq<Snapshot>)
    requires forall x :: x in snapshots ==> Listable(x)
    ensures SplitLines(Listing(snapshots)) == RecordLines(snapshots) + [[]]
  {
    if snapshots != [] {
      var x := snapshots[0];
      assert forall y :: y in snapshots[1..] ==> y in snapshots;
      SplitListing(snapshots[1..]);
      RecordLineHasNoNewline(x);
      SplitAfterLine(RecordLine(x), Listing(snapshots[1..]));
    }
  }

  /** A single line that yields a snapshot reads as that one snapshot. */
  lemma ParseOneLine(line: string, x: Snapshot)
    requires ParseLine(line) == Parsed(x)
    ensures ParseLines([line]) == Ok([x])
  {
    var lines := [line];
    assert lines[..|lines| - 1] == [] && lines[|lines| - 1] == line;
    assert ParseLines(lines[..|lines| - 1]) == Ok([]);
    assert [] + [x] == [x];
  }

  /** The line of a listable snapshot, alone, reads as that one snapshot. */
  lemma ParseRecordLineAlone(x: Snapshot)
    requires Listable(x)
    ensures ParseLines([RecordLine(x)]) == Ok([x])
  {
    ParseRecordLine(x);
    ParseOneLine(RecordLine(x), x);
  }

  /** The lines of listable snapshots read back as those snapshots. */
  lemma {:induction false} ParseRecordLines(snapshots: seq<Snapshot>)
    requires forall x :: x in snapshots ==> Listable(x)
    ensures ParseLines(RecordLines(snapshots)) == Ok(snapshots)
  {
    if snapshots != [] {
      var x := snapshots[0];
      assert forall y :: y in snapshots[1..] ==> y in snapshots;
      ParseRecordLines(snapshots[1..]);
      var first := [RecordLine(x)];
      ParseRecordLineAlone(x);
      ParseLinesAppend(first, RecordLines(snapshots[1..]));
      assert RecordLines(snapshots) == first + RecordLines(snapshots[1..]);
      assert [x] + snapshots[1..] == snapshots;
    }
  }

  /** Reading the listing of listable snapshots gives back exactly those
      snapshots, in order. */
  lemma ListingRoundTrip(snapshots: seq<Snapshot>)
    requires forall x :: x in snapshots ==> Listable(x)
    ensures Enumerated(Some(Listing(snapshots))) == Ok(snapshots)
  {
    var lines := RecordLines(snapshots);
    SplitListing(snapshots);
    ParseRecordLines(snapshots);
    assert (lines + [[]])[..|lines|] == lines;
  }
}
