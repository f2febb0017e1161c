/**
 Buffered reading of lines and tokens from a source that returns data in pieces of any size.
 */
module FilePieces {

  // ----- what the stream says -----

  /** The index of the first character of s in the set, or its length. */
  function FirstOf(s: seq<char>, set_: set<char>): (k: nat)
    ensures k <= |s| && (forall i :: 0 <= i < k ==> s[i] !in set_) && (k < |s| ==> s[k] in set_)
  {
    if s == [] || s[0] in set_ then 0 else 1 + FirstOf(s[1..], set_)
  }

  /** The index of the first character of s outside the set, or its length. */
  function FirstNotOf(s: seq<char>, set_: set<char>): (k: nat)
    ensures k <= |s| && (forall i :: 0 <= i < k ==> s[i] in set_) && (k < |s| ==> s[k] !in set_)
  {
    if s == [] || s[0] !in set_ then 0 else 1 + FirstNotOf(s[1..], set_)
  }

  /** The next line: up to the delimiter without one carriage return before it, or the unterminated rest. */
  function NextLine(s: seq<char>, delim: char, stripCr: bool): seq<char>
  {
    var k := FirstOf(s, {delim});
    if k == |s| then s
    else if stripCr && k > 0 && s[k - 1] == '\r' then s[..k - 1]
    else s[..k]
  }

  function AfterLine(s: seq<char>, delim: char): (rest: seq<char>)
    ensures s != [] ==> |rest| < |s|
  {
    var k := FirstOf(s, {delim});
    if k == |s| then [] else s[k + 1..]
  }

  /** All lines of a stream. */
  function Lines(s: seq<char>, delim: char, stripCr: bool): seq<seq<char>>
    decreases |s|
  {
    if s == [] then [] else [NextLine(s, delim, stripCr)] + Lines(AfterLine(s, delim), delim, stripCr)
  }

  function Terminated(lines: seq<seq<char>>, delim: char): seq<char>
  {
    if lines == [] then [] else lines[0] + [delim] + Terminated(lines[1..], delim)
  }

  /** Writing the lines back gives the stream, with its last line terminated. */
  lemma {:induction false} LinesRoundTrip(s: seq<char>, delim: char)
    ensures Terminated(Lines(s, delim, false), delim) == Complete(s, delim)
    decreases |s|
  {
    if s != [] {
      var rest := AfterLine(s, delim);
      LinesRoundTrip(rest, delim);
      hide Lines, Terminated, Complete, NextLine, AfterLine;
      LinesStep(s, delim, false);
      TerminatedStep(NextLine(s, delim, false), Lines(rest, delim, false), delim);
      Reterminated(s, delim);
    } else {
      NoLines(delim, false);
    }
  }

  /** The stream with its last line terminated. */
  function Complete(s: seq<char>, delim: char): seq<char>
  {
    if s == [] || s[|s| - 1] == delim then s else s + [delim]
  }

  lemma Reterminated(s: seq<char>, delim: char)
    requires s != []
    ensures NextLine(s, delim, false) + [delim] + Complete(AfterLine(s, delim), delim) == Complete(s, delim)
  {
    var k, rest := FirstOf(s, {delim}), AfterLine(s, delim);
    if k < |s| {
      assert s == s[..k] + [delim] + rest;
      if rest != [] {
        assert s[|s| - 1] == rest[|rest| - 1];
        assert s + [delim] == s[..k] + [delim] + (rest + [delim]);
      }
    } else {
      assert s[|s| - 1] != delim;
    }
  }

  lemma LinesStep(s: seq<char>, delim: char, stripCr: bool)
    requires s != []
    ensures Lines(s, delim, stripCr) == [NextLine(s, delim, stripCr)] + Lines(AfterLine(s, delim), delim, stripCr)
  {
  }

  lemma NoLines(delim: char, stripCr: bool)
    ensures Lines([], delim, stripCr) == [] && AfterLine([], delim) == [] && Terminated([], delim) == []
  {
  }

  lemma TerminatedStep(line: seq<char>, lines: seq<seq<char>>, delim: char)
    ensures Terminated([line] + lines, delim) == line + [delim] + Terminated(lines, delim)
  {
    assert ([line] + lines)[1..] == lines;
  }

  /** No line contains the delimiter, so splitting is the only way to undo the writing. */
  lemma {:induction false} LinesHaveNoDelimiter(s: seq<char>, delim: char, stripCr: bool)
    ensures forall i :: 0 <= i < |Lines(s, delim, stripCr)| ==> delim !in Lines(s, delim, stripCr)[i]
    decreases |s|
  {
    if s != [] {
      LinesHaveNoDelimiter(AfterLine(s, delim), delim, stripCr);
      var k := FirstOf(s, {delim});
      assert forall i :: 0 <= i < k ==> s[i] != delim;
    }
  }

  lemma {:induction false} SplitTerminated(lines: seq<seq<char>>, delim: char)
    requires forall i :: 0 <= i < |lines| ==> delim !in lines[i]
    ensures Lines(Terminated(lines, delim), delim, false) == lines
  {
    if lines != [] {
      SplitTerminated(lines[1..], delim);
      FirstTerminated(lines[0], Terminated(lines[1..], delim), delim);
      assert Terminated(lines, delim) == lines[0] + [delim] + Terminated(lines[1..], delim);
    }
  }

  /** What is in front of the first delimiter is the first line. */
  lemma FirstTerminated(first: seq<char>, rest: seq<char>, delim: char)
    requires delim !in first
    ensures Lines(first + [delim] + rest, delim, false) == [first] + Lines(rest, delim, false)
  {
    var s := first + [delim] + rest;
    Found(s, |first|, {delim});
    assert s[..|first|] == first && s[|first| + 1..] == rest;
  }

  ghost predicate OneCrLess(stripped: seq<char>, plain: seq<char>)
  {
    stripped == plain || stripped + ['\r'] == plain
  }

  lemma StrippedLine(s: seq<char>, delim: char)
    ensures OneCrLess(NextLine(s, delim, true), NextLine(s, delim, false))
  {
    var k := FirstOf(s, {delim});
    if 0 < k < |s| { assert s[..k] == s[..k - 1] + [s[k - 1]]; }
  }

  /** Carriage return stripping takes at most one off each line. */
  lemma {:induction false} StrippedLines(s: seq<char>, delim: char)
    ensures |Lines(s, delim, true)| == |Lines(s, delim, false)|
    ensures forall i :: 0 <= i < |Lines(s, delim, true)| ==>
      OneCrLess(Lines(s, delim, true)[i], Lines(s, delim, false)[i])
    decreases |s|
  {
    if s != [] {
      StrippedLines(AfterLine(s, delim), delim);
      hide Lines, OneCrLess, NextLine, AfterLine;
      LinesStep(s, delim, true);
      LinesStep(s, delim, false);
      StrippedLine(s, delim);
    }
  }

  // ----- carriage returns, by what was written -----

  /** A line as a writer puts it: its text, and whether a carriage return goes before the delimiter. */
  datatype WrittenLine = WrittenLine(text: seq<char>, cr: bool)

  function Ended(line: WrittenLine, delim: char): seq<char>
  {
    line.text + (if line.cr then ['\r'] else []) + [delim]
  }

  /** The stream of the lines and an unterminated tail. */
  function Stream(lines: seq<WrittenLine>, tail: seq<char>, delim: char): seq<char>
  {
    if lines == [] then tail else Ended(lines[0], delim) + Stream(lines[1..], tail, delim)
  }

  /** A text has no delimiter, and ends in a carriage return of its own only if another one follows. */
  predicate WellWritten(line: WrittenLine, delim: char)
  {
    && delim !in line.text && (line.cr ==> delim != '\r')
    && (!line.cr && line.text != [] ==> line.text[|line.text| - 1] != '\r')
  }

  /** The texts of the lines, and the tail if there is one. */
  function Texts(lines: seq<WrittenLine>, tail: seq<char>): seq<seq<char>>
  {
    if lines == [] then if tail == [] then [] else [tail] else [lines[0].text] + Texts(lines[1..], tail)
  }

  ghost predicate AllWell(lines: seq<WrittenLine>, tail: seq<char>, delim: char)
  {
    (forall i :: 0 <= i < |lines| ==> WellWritten(lines[i], delim)) && delim !in tail
  }

  /**
   Reading back what was written: one carriage return before a delimiter goes, any other stays, and the tail comes back
   as it is.
   */
  lemma {:induction false} WrittenReadsBack(lines: seq<WrittenLine>, tail: seq<char>, delim: char)
    requires AllWell(lines, tail, delim)
    ensures Lines(Stream(lines, tail, delim), delim, true) == Texts(lines, tail)
  {
    if lines == [] {
      if tail != [] {
        Found(tail, |tail|, {delim});
        NoLines(delim, true);
      }
    } else {
      WrittenReadsBack(lines[1..], tail, delim);
      FirstReadsBack(lines[0], Stream(lines[1..], tail, delim), delim);
    }
  }

  lemma FirstReadsBack(line: WrittenLine, rest: seq<char>, delim: char)
    requires WellWritten(line, delim)
    ensures var s := Ended(line, delim) + rest;
      s != [] && NextLine(s, delim, true) == line.text && AfterLine(s, delim) == rest
  {
    var s, before := Ended(line, delim) + rest, line.text + if line.cr then ['\r'] else [];
    assert s == before + ([delim] + rest);
    assert s[..|before|] == before && s[|before|] == delim && s[|before| + 1..] == rest;
    Found(s, |before|, {delim});
    assert s[..|line.text|] == line.text;
    if line.text != [] { assert s[|line.text| - 1] == line.text[|line.text| - 1]; }
  }

  /** However the stream may have been written, lines are the texts of that. */
  ghost predicate ReadsAs(s: seq<char>, delim: char, lines: seq<seq<char>>)
  {
    forall w: seq<WrittenLine>, tail: seq<char> ::
      AllWell(w, tail, delim) && s == Stream(w, tail, delim) ==> lines == Texts(w, tail)
  }

  lemma LinesAsWritten(s: seq<char>, delim: char)
    ensures ReadsAs(s, delim, Lines(s, delim, true))
  {
    hide AllWell, Stream, Texts, Lines;
    forall w: seq<WrittenLine>, tail: seq<char> | AllWell(w, tail, delim) && s == Stream(w, tail, delim)
      ensures Lines(s, delim, true) == Texts(w, tail)
    {
      WrittenReadsBack(w, tail, delim);
    }
  }

  /** Every stream is one that was written, so that reading is determined. */
  lemma {:induction false} AsWritten(s: seq<char>, delim: char) returns (lines: seq<WrittenLine>, tail: seq<char>)
    ensures AllWell(lines, tail, delim) && s == Stream(lines, tail, delim)
    decreases |s|
  {
    var k := FirstOf(s, {delim});
    if k == |s| {
      lines, tail := [], s;
    } else {
      var cr := k > 0 && s[k - 1] == '\r';
      var first := WrittenLine(if cr then s[..k - 1] else s[..k], cr);
      var rest;
      rest, tail := AsWritten(s[k + 1..], delim);
      lines := [first] + rest;
      assert lines[1..] == rest;
      assert s == s[..k] + [delim] + s[k + 1..];
      assert cr ==> s[..k] == s[..k - 1] + ['\r'];
      assert s == Ended(first, delim) + s[k + 1..];
    }
  }

  // ----- the source and the buffer -----

  /** A source of bytes: each read returns some of what is left, and nothing only at the end. */
  class Source {
    const input: seq<char>
    var taken: nat

    constructor (input: seq<char>)
      ensures this.input == input && taken == 0
    {
      this.input, taken := input, 0;
    }

    ghost function Left(): seq<char>
      reads this
      requires taken <= |input|
    {
      input[taken..]
    }

    method Read(to: array<char>, from: nat, amount: nat) returns (got: nat)
      requires taken <= |input| && from + amount <= to.Length
      modifies this, to
      ensures taken <= |input| && got <= amount && old(taken) + got == taken
      ensures got == 0 <==> amount == 0 || old(taken) == |input|
      ensures to[..from] == old(to[..from]) && to[from + got..] == old(to[from + got..])
      ensures to[from..from + got] == input[old(taken)..taken]
    {
      got := 0;
      if amount > 0 && taken < |input| {
        got :| 0 < got <= amount && taken + got <= |input|;
      }
      for i := 0 to got
        invariant taken == old(taken)
        invariant to[..from] == old(to[..from]) && to[from + i..] == old(to[from + i..])
        invariant to[from..from + i] == input[taken..taken + i]
      {
        to[from + i] := input[taken + i];
      }
      taken := taken + got;
    }
  }

  datatype Outcome<T> = EndOfFile | Ok(value: T)

  class FilePiece {
    var data: array<char>
    var position: nat
    var positionEnd: nat
    var defaultMapSize: nat
    var atEnd: bool
    const fellBack: Source

    ghost predicate Valid()
      reads this, data, fellBack
    {
      && position <= positionEnd <= defaultMapSize == data.Length && 0 < defaultMapSize
      && fellBack.taken <= |fellBack.input|
      && (atEnd ==> fellBack.taken == |fellBack.input|)
    }

    /** Everything not yet handed out: what the buffer holds and what the source still has. */
    ghost function Unread(): seq<char>
      reads this, data, fellBack
      requires Valid()
    {
      data[position..positionEnd] + fellBack.Left()
    }

    /** Characters available without another read, then the source. */
    lemma Buffered()
      requires Valid()
      ensures |Unread()| == positionEnd - position + (|fellBack.input| - fellBack.taken)
      ensures forall i :: position <= i < positionEnd ==> data[i] == Unread()[i - position]
      ensures forall i :: position <= i <= positionEnd ==> data[position..i] == Unread()[..i - position]
      ensures atEnd ==> Unread() == data[position..positionEnd]
    {
      forall i | position <= i <= positionEnd ensures data[position..i] == Unread()[..i - position] {
        assert data[position..positionEnd][..i - position] == data[position..i];
      }
    }

    /** The constructor for a stream; page is the size of a memory page. */
    constructor (stream: Source, minBuffer: nat, page: nat)
      requires stream.taken <= |stream.input| && 0 < page
      ensures Valid() && Unread() == stream.Left() && fellBack == stream
      ensures fresh(data)
    {
      var pages := if minBuffer / page + 1 < 2 then 2 else minBuffer / page + 1;
      SizePositive(page, pages);
      defaultMapSize := page * pages;
      data := new char[page * pages];
      position, positionEnd, atEnd := 0, 0, false;
      fellBack := stream;
    }

    /**
     Makes room and reads more. Nothing unread is lost, and either something new arrives or the end is noted. The buffer
     doubles when all of it is unread, and stays otherwise.
     */
    method ReadShift()
      requires Valid() && !atEnd
      modifies this, data, fellBack
      ensures Valid() && Unread() == old(Unread())
      ensures data == old(data) || fresh(data)
      ensures atEnd <==> old(fellBack.taken) == |fellBack.input|
      ensures !atEnd ==> fellBack.taken > old(fellBack.taken)
      ensures atEnd ==> fellBack.taken == old(fellBack.taken)
      ensures positionEnd - position == old(positionEnd - position) + (fellBack.taken - old(fellBack.taken))
      ensures old(positionEnd - position == defaultMapSize) ==> defaultMapSize == 2 * old(defaultMapSize)
      ensures old(positionEnd - position < defaultMapSize) ==>
        data == old(data) && defaultMapSize == old(defaultMapSize)
    {
      if position == positionEnd {
        position := 0;
        positionEnd := position;
      }
      var alreadyRead := positionEnd;
      if alreadyRead == defaultMapSize {
        if position == 0 {
          GrowBuffer();
        } else {
          alreadyRead := MoveDown();
        }
      }
      Refill(alreadyRead);
    }

    method Refill(alreadyRead: nat)
      requires Valid() && !atEnd && alreadyRead == positionEnd < defaultMapSize
      modifies this`positionEnd, this`atEnd, data, fellBack
      ensures Valid() && Unread() == old(Unread())
      ensures atEnd <==> old(fellBack.taken) == |fellBack.input|
      ensures !atEnd ==> fellBack.taken > old(fellBack.taken)
      ensures atEnd ==> fellBack.taken == old(fellBack.taken)
      ensures positionEnd - position == old(positionEnd - position) + (fellBack.taken - old(fellBack.taken))
    {
      ghost var unread, kept, front, from := data[position..positionEnd], fellBack.Left(), data[..alreadyRead],
        fellBack.taken;
      var got := fellBack.Read(data, alreadyRead, defaultMapSize - alreadyRead);
      if got == 0 { atEnd := true; }
      assert data[position..positionEnd] == unread by {
        assert data[..alreadyRead] == front && front[position..] == unread;
        assert data[..alreadyRead][position..] == data[position..alreadyRead];
      }
      positionEnd := positionEnd + got;
      assert data[position..positionEnd] == unread + fellBack.input[from..fellBack.taken];
      assert kept == fellBack.input[from..fellBack.taken] + fellBack.Left();
    }

    /** Doubles a full buffer. */
    method GrowBuffer()
      requires Valid() && position == 0 && positionEnd == defaultMapSize
      modifies this
      ensures Valid() && Unread() == old(Unread()) && fresh(data) && atEnd == old(atEnd)
      ensures position == 0 && positionEnd == old(positionEnd) < defaultMapSize == 2 * old(defaultMapSize)
    {
      var validLength := positionEnd - position;
      defaultMapSize := defaultMapSize * 2;
      var moved := new char[defaultMapSize];
      for i := 0 to data.Length
        modifies moved
        invariant moved[..i] == data[..i]
      {
        moved[i] := data[i];
      }
      assert moved[0..validLength] == old(data[position..positionEnd]);
      data := moved;
      position := 0;
      positionEnd := position + validLength;
    }

    /** Moves what is unread to the front of a full buffer. */
    method MoveDown() returns (alreadyRead: nat)
      requires Valid() && 0 < position && positionEnd == defaultMapSize
      modifies this`position, this`positionEnd, data
      ensures Valid() && Unread() == old(Unread())
      ensures position == 0 && positionEnd == alreadyRead == old(positionEnd - position) < defaultMapSize
    {
      var moving := positionEnd - position;
      ghost var b := data[..];
      for i := 0 to moving
        modifies data
        invariant forall k :: 0 <= k < i ==> data[k] == b[position + k]
        invariant forall k :: i <= k < data.Length ==> data[k] == b[k]
      {
        data[i] := data[position + i];
      }
      assert data[0..moving] == old(data[position..positionEnd]);
      position := 0;
      positionEnd := position + moving;
      alreadyRead := moving;
    }

    /** Asks for more; the answer is whether the end had been reached before. */
    method Shift() returns (eof: bool)
      requires Valid()
      modifies this, data, fellBack
      ensures Valid() && Unread() == old(Unread()) && (data == old(data) || fresh(data))
      ensures eof <==> old(atEnd)
      ensures eof ==>
        atEnd && fellBack.taken == old(fellBack.taken) && position == old(position) && positionEnd == old(positionEnd)
      ensures !eof ==> (atEnd <==> old(fellBack.taken) == |fellBack.input|)
      ensures !eof && !atEnd ==> fellBack.taken > old(fellBack.taken)
      ensures !eof ==> fellBack.taken >= old(fellBack.taken)
      ensures !eof ==> positionEnd - position == old(positionEnd - position) + (fellBack.taken - old(fellBack.taken))
    {
      if atEnd { return true; }
      eof := false;
      ReadShift();
    }

    /** Hands out the characters before to. */
    method Consume(to: nat) returns (ret: seq<char>)
      requires Valid() && position <= to <= positionEnd
      modifies this`position
      ensures Valid() && position == to
      ensures old(Unread()) == ret + Unread() && |ret| == to - old(position)
    {
      ret := data[position..to];
      assert data[position..positionEnd] == data[position..to] + data[to..positionEnd];
      position := to;
    }

    /** Looks for a character of the set among those in the buffer, past the ones known not to match. */
    method ScanBuffer(skip: nat, delim: set<char>) returns (i: nat)
      requires Valid() && skip <= positionEnd - position
      ensures position + skip <= i <= positionEnd
      ensures forall k :: position + skip <= k < i ==> data[k] !in delim
      ensures i < positionEnd ==> data[i] in delim
    {
      i := position + skip;
      while i < positionEnd && data[i] !in delim
        invariant position + skip <= i <= positionEnd
        invariant forall k :: position + skip <= k < i ==> data[k] !in delim
      {
        i := i + 1;
      }
    }

    /** The next line of the stream, whatever pieces the source delivers it in. */
    method ReadLine(delim: char, stripCr: bool) returns (line: Outcome<seq<char>>)
      requires Valid()
      modifies this, data, fellBack
      ensures Valid() && (data == old(data) || fresh(data))
      ensures line.EndOfFile? <==> old(Unread()) == []
      ensures line.Ok? ==> line.value == NextLine(old(Unread()), delim, stripCr)
      ensures Unread() == AfterLine(old(Unread()), delim)
    {
      hide Unread, NextLine, AfterLine, FirstOf, NoneBefore;
      ghost var s := Unread();
      var skip: nat := 0;
      NoneBeforeStart(s, delim);
      while true
        invariant Valid() && Unread() == s && (data == old(data) || fresh(data))
        invariant 0 <= skip <= positionEnd - position && NoneBefore(s, skip, delim)
        decreases |fellBack.input| - fellBack.taken, !atEnd
      {
        var i := ScanBuffer(skip, {delim});
        NoneScanned(skip, i, delim, s);
        if i < positionEnd {
          line := Ok(EndLine(i, delim, stripCr, s));
          MoveTo(i + 1);
          return;
        }
        if atEnd {
          OnlyTail(s, delim, stripCr);
          if position == positionEnd {
            var eof := Shift();
            return EndOfFile;
          }
          var rest := Consume(positionEnd);
          NothingAfter();
          return Ok(rest);
        }
        skip := positionEnd - position;
        var eof := Shift();
      }
    }

    /** What the buffer scan has seen, in the unread stream. */
    lemma NoneScanned(skip: nat, i: nat, delim: char, s: seq<char>)
      requires Valid() && s == Unread() && NoneBefore(s, skip, delim) && position + skip <= i <= positionEnd
      requires forall k :: position + skip <= k < i ==> data[k] !in {delim}
      ensures NoneBefore(s, i - position, delim)
      ensures positionEnd - position <= |s| && (atEnd ==> |s| == positionEnd - position)
    {
      Buffered();
      forall k | skip <= k < i - position ensures s[k] != delim { assert data[position + k] == s[k]; }
    }

    lemma NothingAfter()
      requires Valid() && atEnd && position == positionEnd
      ensures Unread() == []
    {
      Buffered();
    }

    /** The line that ends at buffer index i. */
    function EndLine(i: nat, delim: char, stripCr: bool, ghost s: seq<char>): (line: seq<char>)
      requires Valid() && s == Unread() && position <= i < positionEnd && data[i] == delim
      requires NoneBefore(s, i - position, delim)
      reads this, data, fellBack
      ensures i - position < |s| && line == NextLine(s, delim, stripCr)
      ensures AfterLine(s, delim) == s[i - position + 1..]
    {
      Buffered();
      Found(s, i - position, {delim});
      assert data[i] == s[i - position];
      var subtractCr := if stripCr && i > position && data[i - 1] == '\r' then 1 else 0;
      data[position..i - subtractCr]
    }

    lemma SuffixAt(i: nat)
      requires Valid() && position <= i <= positionEnd
      ensures data[i..positionEnd] + fellBack.Left() == Unread()[i - position..]
    {
      assert data[position..positionEnd][i - position..] == data[i..positionEnd];
    }

    method MoveTo(to: nat)
      requires Valid() && position <= to <= positionEnd
      modifies this`position
      ensures Valid() && Unread() == old(Unread())[to - old(position)..] && position == to
    {
      SuffixAt(to);
      position := to;
    }

    method ReadLineOrEOF(delim: char, stripCr: bool) returns (ok: bool, to: seq<char>)
      requires Valid()
      modifies this, data, fellBack
      ensures Valid() && (data == old(data) || fresh(data))
      ensures ok <==> old(Unread()) != []
      ensures ok ==> to == NextLine(old(Unread()), delim, stripCr)
      ensures Unread() == AfterLine(old(Unread()), delim)
    {
      var line := ReadLine(delim, stripCr);
      ok, to := line.Ok?, if line.Ok? then line.value else [];
    }

    /** Reading to the end yields exactly the lines of the stream. */
    method ReadAllLines(delim: char, stripCr: bool) returns (lines: seq<seq<char>>)
      requires Valid()
      modifies this, data, fellBack
      ensures Valid() && Unread() == [] && lines == Lines(old(Unread()), delim, stripCr)
      ensures forall i :: 0 <= i < |lines| ==> delim !in lines[i]
      ensures !stripCr ==> Terminated(lines, delim) == Complete(old(Unread()), delim)
      ensures stripCr ==> ReadsAs(old(Unread()), delim, lines)
    {
      hide Unread, NextLine, AfterLine, Lines, Terminated, Complete, ReadsAs;
      LinesAsWritten(Unread(), delim);
      LinesHaveNoDelimiter(Unread(), delim, stripCr);
      LinesRoundTrip(Unread(), delim);
      lines := [];
      while true
        invariant Valid() && (data == old(data) || fresh(data))
        invariant lines + Lines(Unread(), delim, stripCr) == Lines(old(Unread()), delim, stripCr)
        decreases |Unread()|
      {
        ghost var s := Unread();
        var ok, to := ReadLineOrEOF(delim, stripCr);
        if !ok { NoLines(delim, stripCr); return; }
        LinesStep(s, delim, stripCr);
        lines := lines + [to];
      }
    }

    method Get() returns (c: Outcome<char>)
      requires Valid()
      modifies this, data, fellBack
      ensures Valid() && (data == old(data) || fresh(data))
      ensures c.EndOfFile? <==> old(Unread()) == []
      ensures c.Ok? ==> old(Unread()) == [c.value] + Unread()
      ensures c.EndOfFile? ==> Unread() == []
    {
      hide Unread;
      Buffered();
      if position == positionEnd {
        var eof := Shift();
        Buffered();
        if eof || atEnd { return EndOfFile; }
      }
      Buffered();
      c := Ok(data[position]);
      MoveTo(position + 1);
    }

    /** Skips delimiters; stops at the first other character, or at the end. */
    method SkipSpaces(delim: set<char>) returns (eof: bool)
      requires Valid()
      modifies this, data, fellBack
      ensures Valid() && (data == old(data) || fresh(data))
      ensures Unread() == old(Unread())[FirstNotOf(old(Unread()), delim)..]
      ensures eof ==> Unread() == []
      ensures Unread() != [] ==> position < positionEnd
    {
      hide Unread;
      ghost var s, k := Unread(), 0;
      while true
        invariant Valid() && (data == old(data) || fresh(data))
        invariant k <= |s| && Unread() == s[k..] && forall i :: 0 <= i < k ==> s[i] in delim
        decreases |Unread()|, !atEnd
      {
        Buffered();
        if position == positionEnd {
          eof := Shift();
          Buffered();
          if eof { AllSkipped(s, k, delim); return; }
          if position == positionEnd { AllSkipped(s, k, delim); return; }
        }
        Buffered();
        assert data[position] == s[k];
        if data[position] !in delim {
          Skipped(s, k, delim);
          return false;
        }
        MoveTo(position + 1);
        k := k + 1;
      }
    }

    /** The buffer index of the first delimiter among the unread, or of the end. */
    method FindDelimiterOrEOF(delim: set<char>) returns (at: Outcome<nat>)
      requires Valid()
      modifies this, data, fellBack
      ensures Valid() && Unread() == old(Unread()) && (data == old(data) || fresh(data))
      ensures at.EndOfFile? <==> Unread() == []
      ensures at.Ok? ==> position <= at.value <= positionEnd && at.value - position == FirstOf(Unread(), delim)
    {
      hide Unread;
      ghost var s := Unread();
      var skip: nat := 0;
      while true
        invariant Valid() && Unread() == s && (data == old(data) || fresh(data))
        invariant 0 <= skip <= positionEnd - position && skip <= |s|
        invariant forall k :: 0 <= k < skip ==> s[k] !in delim
        decreases |fellBack.input| - fellBack.taken, !atEnd
      {
        Buffered();
        var i := ScanBuffer(skip, delim);
        assert forall k :: 0 <= k < i - position ==> s[k] !in delim by {
          forall k | skip <= k < i - position ensures s[k] !in delim { assert data[position + k] == s[k]; }
        }
        if i < positionEnd {
          assert data[i] == s[i - position];
          Found(s, i - position, delim);
          return Ok(i);
        }
        if atEnd {
          if position == positionEnd {
            var eof := Shift();
            return EndOfFile;
          }
          Found(s, |s|, delim);
          return Ok(positionEnd);
        }
        skip := positionEnd - position;
        var eof := Shift();
      }
    }

    /** The next token: delimiters skipped, the one that ends it left in place. */
    method ReadDelimited(delim: set<char>) returns (token: Outcome<seq<char>>)
      requires Valid()
      modifies this, data, fellBack
      ensures Valid() && (data == old(data) || fresh(data))
      ensures var s := old(Unread())[FirstNotOf(old(Unread()), delim)..];
        && (token.EndOfFile? <==> s == [])
        && (token.EndOfFile? ==> Unread() == [])
        && (token.Ok? ==> token.value == s[..FirstOf(s, delim)] && Unread() == s[FirstOf(s, delim)..])
    {
      hide Unread, FirstOf, FirstNotOf;
      var eof := SkipSpaces(delim);
      if eof { return EndOfFile; }
      ghost var s := Unread();
      var at := FindDelimiterOrEOF(delim);
      if at.EndOfFile? { return EndOfFile; }
      var ret := Consume(at.value);
      Parted(s, ret, Unread());
      token := Ok(ret);
    }

    /** The next token on the same line, if there is one. */
    method ReadWordSameLine(delim: set<char>) returns (ok: bool, to: seq<char>)
      requires Valid() && '\n' in delim
      modifies this, data, fellBack
      ensures Valid() && (data == old(data) || fresh(data))
      ensures var s := old(Unread())[FirstNotOf(old(Unread()), delim - {'\n'})..];
        && (ok <==> s != [] && s[0] != '\n')
        && (if ok then to == s[..FirstOf(s, delim)] && Unread() == s[FirstOf(s, delim)..] else Unread() == s)
    {
      hide Unread, FirstOf, FirstNotOf;
      var eof := SkipSpaces(delim - {'\n'});
      Buffered();
      if eof || position == positionEnd { return false, []; }
      assert data[position] == Unread()[0];
      if data[position] == '\n' { return false, []; }
      ghost var s := Unread();
      var at := FindDelimiterOrEOF(delim);
      to := Consume(at.value);
      Parted(s, to, Unread());
      ok := true;
    }
  }

  lemma Parted(s: seq<char>, front: seq<char>, rest: seq<char>)
    requires s == front + rest
    ensures front == s[..|front|] && rest == s[|front|..]
  {
  }

  lemma SizePositive(page: nat, pages: nat)
    requires 0 < page && 0 < pages
    ensures 0 < page * pages
  {
  }

  lemma Skipped(s: seq<char>, k: nat, delim: set<char>)
    requires k < |s| && s[k] !in delim && forall i :: 0 <= i < k ==> s[i] in delim
    ensures FirstNotOf(s, delim) == k
  {
    var j := FirstNotOf(s, delim);
    assert k <= j;
  }

  lemma AllSkipped(s: seq<char>, k: nat, delim: set<char>)
    requires k <= |s| && s[k..] == [] && forall i :: 0 <= i < k ==> s[i] in delim
    ensures FirstNotOf(s, delim) == k
  {
    var j := FirstNotOf(s, delim);
    assert k <= j;
  }

  /** The first n characters are no delimiter. */
  ghost predicate NoneBefore(s: seq<char>, n: nat, delim: char)
  {
    n <= |s| && forall k :: 0 <= k < n ==> s[k] != delim
  }

  lemma NoneBeforeStart(s: seq<char>, delim: char)
    ensures NoneBefore(s, 0, delim)
  {
  }

  /** Without a delimiter everything is one line. */
  lemma OnlyTail(s: seq<char>, delim: char, stripCr: bool)
    requires NoneBefore(s, |s|, delim)
    ensures NextLine(s, delim, stripCr) == s && AfterLine(s, delim) == []
  {
    Found(s, |s|, {delim});
  }

  lemma Found(s: seq<char>, k: nat, delim: set<char>)
    requires k <= |s| && (k < |s| ==> s[k] in delim) && forall i :: 0 <= i < k ==> s[i] !in delim
    ensures FirstOf(s, delim) == k
  {
    var j := FirstOf(s, delim);
    assert k <= j;
  }
}
