/** input_course_info.py: turning typed timeslot lines into the packages of a course. */
module Catalog {
  import opened Options
  import opened Exceptions
  import opened Text
  import opened TimeModel
  import opened CourseTypes
  import opened Sequences

  // ---------------------------------------------------------------------------------------
  // One timeslot line

  /** process_input: a line "Day start - end" becomes a slot of courseName. Unpacking anything
      but four tokens raises ValueError, so does an hour that is not a number, and a day that is
      not a week day raises KeyError; the hours are read before the day is looked up. */
  function ProcessInput(rawTime: string, courseName: string): (r: Result<LectureSlot>)
    ensures r.Ok? ==> r.value.courseName == courseName && WellFormed(r.value)
    ensures r.Ok? ==> 0 <= r.value.startHour <= 23 && 0 <= r.value.endHour <= 23
    ensures r.Err? <==> |Split(Strip(rawTime))| != 4
                        || ConvertTo24h(Split(Strip(rawTime))[1]).Err?
                        || ConvertTo24h(Split(Strip(rawTime))[3]).Err?
                        || Split(Strip(rawTime))[0] !in DaysOfTheWeek
    ensures r.Err? ==> (r.error == KeyError <==> |Split(Strip(rawTime))| == 4
                                                 && ConvertTo24h(Split(Strip(rawTime))[1]).Ok?
                                                 && ConvertTo24h(Split(Strip(rawTime))[3]).Ok?)
    ensures r.Err? ==> r.error == KeyError || r.error == ValueError
    ensures r.Ok? ==> var tokens := Split(Strip(rawTime));
                      && r.value.dayOfWeek == tokens[0]
                      && ConvertTo24h(tokens[1]) == Ok(r.value.startHour)
                      && ConvertTo24h(tokens[3]) == Ok(r.value.endHour)
  {
    var tokens := Split(Strip(rawTime));
    if |tokens| != 4 then Err(ValueError)
    else
      var date, begin, end := tokens[0], tokens[1], tokens[3];
      match ConvertTo24h(begin)
      case Err(e) => Err(e)
      case Ok(beginHour) =>
        match ConvertTo24h(end)
        case Err(e) => Err(e)
        case Ok(endHour) => MakeSlot(courseName, date, beginHour, endHour)
  }

  /** The line a user types for a slot, in the format process_input reads. */
  function SlotLine(slot: LectureSlot): string
  {
    slot.dayOfWeek + " " + ConvertTo12h(slot.startHour) + " - " + ConvertTo12h(slot.endHour)
  }

  /** The example of process_input's documentation. */
  lemma {:induction false} ProcessInputExample()
    ensures ProcessInput("Tuesday 10:00AM - 12:00PM", "CSCA08") == Ok(LectureSlot("CSCA08", "Tuesday", 2, 10, 12))
  {
    var slot := LectureSlot("CSCA08", "Tuesday", 2, 10, 12);
    ExampleLine();
    ProcessInputRoundTrip(slot);
  }

  lemma {:induction false} ExampleLine()
    ensures SlotLine(LectureSlot("CSCA08", "Tuesday", 2, 10, 12)) == "Tuesday 10:00AM - 12:00PM"
  {
    TenAM();
    NoonText();
  }

  lemma {:induction false} TenAM()
    ensures ConvertTo12h(10) == "10:00AM"
  {
    assert NatToString(10) == "10";
  }

  lemma {:induction false} NoonText()
    ensures ConvertTo12h(12) == "12:00PM"
  {
    assert NatToString(12) == "12";
  }

  /** Any whitespace separates tokens, and the third token need not be "-": a no-break space
      after the day and "to" between the hours give the slot of the documented example. */
  lemma {:induction false} ProcessInputLooseLine()
    ensures ProcessInput("Tuesday\U{A0}10:00AM to 12:00PM", "CSCA08") == Ok(LectureSlot("CSCA08", "Tuesday", 2, 10, 12))
  {
    TenAMParses();
    NoonPM();
    LooseWords();
    LooseConcat();
    TuesdaySlot();
    LooseLine("Tuesday", "\U{A0}", "10:00AM", "to", "12:00PM", "Tuesday\U{A0}10:00AM to 12:00PM", "CSCA08");
  }

  lemma {:induction false} LooseWords()
    ensures NoWhitespace("Tuesday") && NoWhitespace("10:00AM") && NoWhitespace("to") && NoWhitespace("12:00PM")
    ensures AllWhitespace("\U{A0}")
  {
  }

  lemma {:induction false} LooseConcat()
    ensures "Tuesday\U{A0}10:00AM to 12:00PM" == "Tuesday" + "\U{A0}" + ("10:00AM" + " " + ("to" + " " + "12:00PM"))
  {
  }

  lemma {:induction false} TuesdaySlot()
    ensures MakeSlot("CSCA08", "Tuesday", 10, 12) == Ok(LectureSlot("CSCA08", "Tuesday", 2, 10, 12))
  {
  }

  /** day, a whitespace run, begin, sep and end, all words, read as day, begin and end. */
  lemma {:induction false} LooseLine(day: string, ws: string, begin: string, sep: string, end: string,
                                     line: string, courseName: string)
    requires day != [] && NoWhitespace(day) && ws != [] && AllWhitespace(ws)
    requires begin != [] && NoWhitespace(begin) && sep != [] && NoWhitespace(sep)
    requires end != [] && NoWhitespace(end)
    requires line == day + ws + (begin + " " + (sep + " " + end))
    requires ConvertTo24h(begin).Ok? && ConvertTo24h(end).Ok?
    ensures ProcessInput(line, courseName) == MakeSlot(courseName, day, ConvertTo24h(begin).value, ConvertTo24h(end).value)
  {
    LooseTokens(day, ws, begin, sep, end, line);
    ProcessInputOfTokens(line, courseName);
  }

  lemma {:induction false} LooseTokens(day: string, ws: string, begin: string, sep: string, end: string, line: string)
    requires day != [] && NoWhitespace(day) && ws != [] && AllWhitespace(ws)
    requires begin != [] && NoWhitespace(begin) && sep != [] && NoWhitespace(sep)
    requires end != [] && NoWhitespace(end)
    requires line == day + ws + (begin + " " + (sep + " " + end))
    ensures Split(Strip(line)) == [day, begin, sep, end]
  {
    LooseStripped(day, ws, begin, sep, end, line);
    SplitWord(end);
    SplitJoin(sep, end);
    SplitJoin(begin, sep + " " + end);
    SplitWordRun(day, ws, begin + " " + (sep + " " + end));
  }

  lemma {:induction false} LooseStripped(day: string, ws: string, begin: string, sep: string, end: string, line: string)
    requires day != [] && NoWhitespace(day) && end != [] && NoWhitespace(end)
    requires line == day + ws + (begin + " " + (sep + " " + end))
    ensures Strip(line) == line
  {
    assert line[0] == day[0] && line[|line| - 1] == end[|end| - 1];
    StripWords(line);
  }

  lemma {:induction false} TenAMParses()
    ensures ConvertTo24h("10:00AM") == Ok(10)
  {
    assert NatToString(10) == "10";
    HourTextExample(10, ":00AM", "10:00AM");
  }

  /** Reading back the line of a slot built by the constructor, with hours of the day, gives
      the same slot. */
  lemma {:induction false} ProcessInputRoundTrip(slot: LectureSlot)
    requires WellFormed(slot)
    requires 0 <= slot.startHour <= 23 && 0 <= slot.endHour <= 23
    ensures ProcessInput(SlotLine(slot), slot.courseName) == Ok(slot)
  {
    var begin, end := ConvertTo12h(slot.startHour), ConvertTo12h(slot.endHour);
    SlotLineTokens(slot);
    ConvertRoundTrip(slot.startHour);
    ConvertRoundTrip(slot.endHour);
    ProcessInputOfTokens(SlotLine(slot), slot.courseName);
    MakeSlotOfFields(slot);
  }

  /** A line of four tokens whose second and fourth parse as hours gives the constructor's
      result for the first token and those hours; the third token is read and ignored. */
  lemma {:induction false} ProcessInputOfTokens(rawTime: string, courseName: string)
    requires |Split(Strip(rawTime))| == 4
    requires ConvertTo24h(Split(Strip(rawTime))[1]).Ok? && ConvertTo24h(Split(Strip(rawTime))[3]).Ok?
    ensures var t := Split(Strip(rawTime));
            ProcessInput(rawTime, courseName)
            == MakeSlot(courseName, t[0], ConvertTo24h(t[1]).value, ConvertTo24h(t[3]).value)
  {
  }

  /** The line of a slot splits into the day, the start, "-" and the end. */
  lemma {:induction false} SlotLineTokens(slot: LectureSlot)
    requires WellFormed(slot)
    requires 0 <= slot.startHour <= 23 && 0 <= slot.endHour <= 23
    ensures Split(Strip(SlotLine(slot)))
         == [slot.dayOfWeek, ConvertTo12h(slot.startHour), "-", ConvertTo12h(slot.endHour)]
  {
    HourTextIsWord(slot.startHour);
    HourTextIsWord(slot.endHour);
    DayIsWord(slot.dayOfWeek);
    LineTokens(slot.dayOfWeek, ConvertTo12h(slot.startHour), ConvertTo12h(slot.endHour));
  }

  /** Three words joined as "day begin - end" split back into the four tokens. */
  lemma {:induction false} LineTokens(day: string, begin: string, end: string)
    requires day != [] && NoWhitespace(day)
    requires begin != [] && NoWhitespace(begin)
    requires end != [] && NoWhitespace(end)
    ensures Split(Strip(day + " " + begin + " - " + end)) == [day, begin, "-", end]
  {
    LineIsStripped(day, begin, end);
    LineSplits(day, begin, end);
  }

  lemma {:induction false} LineSplits(day: string, begin: string, end: string)
    requires day != [] && NoWhitespace(day)
    requires begin != [] && NoWhitespace(begin)
    requires end != [] && NoWhitespace(end)
    ensures Split(day + " " + begin + " - " + end) == [day, begin, "-", end]
  {
    LineAssociates(day, begin, end);
    DashIsWord();
    SplitJoin("-", end);
    SplitWord(end);
    SplitJoin(begin, "-" + " " + end);
    SplitJoin(day, begin + " " + ("-" + " " + end));
  }

  lemma {:induction false} DashIsWord()
    ensures "-" != [] && NoWhitespace("-")
  {
  }

  /** The typed line regrouped the way SplitJoin consumes it. */
  lemma {:induction false} LineAssociates(day: string, begin: string, end: string)
    ensures day + " " + begin + " - " + end == day + " " + (begin + " " + ("-" + " " + end))
  {
  }

  lemma {:induction false} LineIsStripped(day: string, begin: string, end: string)
    requires day != [] && NoWhitespace(day)
    requires end != [] && NoWhitespace(end)
    ensures Strip(day + " " + begin + " - " + end) == day + " " + begin + " - " + end
  {
    var line := day + " " + begin + " - " + end;
    assert line[0] == day[0] && line[|line| - 1] == end[|end| - 1];
    StripWords(line);
  }

  lemma {:induction false} DayIsWord(day: string)
    requires exists i :: 0 <= i < |DaysOfTheWeek| && DaysOfTheWeek[i] == day
    ensures day != [] && NoWhitespace(day)
  {
  }

  /** The 12-hour text of an hour of the day is one non-empty word. */
  lemma {:induction false} HourTextIsWord(hour: int)
    requires 0 <= hour <= 23
    ensures ConvertTo12h(hour) != [] && NoWhitespace(ConvertTo12h(hour))
  {
    var n: nat := if hour > 12 then hour - 12 else hour;
    assert IntToString(n) == NatToString(n);
  }

  /** A text that starts and ends with a non-whitespace character is its own strip. */
  lemma {:induction false} StripWords(s: string)
    requires s != [] && !IsWhitespace(s[0]) && !IsWhitespace(s[|s| - 1])
    ensures Strip(s) == s
  {
  }

  // ---------------------------------------------------------------------------------------
  // Package signatures

  /** The text get_info records for one slot: course name, day number, start and end hour. */
  function Signature(slot: LectureSlot): string
  {
    slot.courseName + (IntToString(slot.dayNum) + (IntToString(slot.startHour) + IntToString(slot.endHour)))
  }

  /** get_info: the set of the slots' signatures. */
  function GetInfo(package: LecturePackage): set<string>
  {
    set slot | slot in package :: Signature(slot)
  }

  /** get_info ignores the order of the slots, and how often one occurs. */
  lemma {:induction false} GetInfoSameSlots(p: LecturePackage, q: LecturePackage)
    requires forall x :: x in p <==> x in q
    ensures GetInfo(p) == GetInfo(q)
  {
  }

  /** The slots of one course with a plausible time, start before end, within a day. */
  ghost predicate Plausible(slot: LectureSlot, courseName: string)
  {
    slot.courseName == courseName && WellFormed(slot) && 0 <= slot.startHour < slot.endHour <= 23
  }

  /** For plausible slots of one course the signature determines the slot, so get_info tells
      two packages apart exactly when they hold different slots. */
  lemma {:induction false} GetInfoDistinguishes(p: LecturePackage, q: LecturePackage, courseName: string)
    requires forall x :: x in p ==> Plausible(x, courseName)
    requires forall x :: x in q ==> Plausible(x, courseName)
    ensures GetInfo(p) == GetInfo(q) <==> forall x :: x in p <==> x in q
  {
    if GetInfo(p) == GetInfo(q) {
      forall x | x in p
        ensures x in q
      {
        assert Signature(x) in GetInfo(q);
        var y :| y in q && Signature(y) == Signature(x);
        SignatureInjective(x, y, courseName);
      }
      forall x | x in q
        ensures x in p
      {
        assert Signature(x) in GetInfo(p);
        var y :| y in p && Signature(y) == Signature(x);
        SignatureInjective(x, y, courseName);
      }
    }
  }

  lemma {:induction false} SignatureInjective(a: LectureSlot, b: LectureSlot, courseName: string)
    requires Plausible(a, courseName) && Plausible(b, courseName)
    requires Signature(a) == Signature(b)
    ensures a == b
  {
    var ta := IntToString(a.dayNum) + (IntToString(a.startHour) + IntToString(a.endHour));
    var tb := IntToString(b.dayNum) + (IntToString(b.startHour) + IntToString(b.endHour));
    assert ta == tb by {
      assert ta == (courseName + ta)[|courseName|..];
      assert tb == (courseName + tb)[|courseName|..];
    }
    DayAndHoursDetermine(a.dayNum, a.startHour, a.endHour, b.dayNum, b.startHour, b.endHour);
    assert a.dayOfWeek == DaysOfTheWeek[a.dayNum - 1] == b.dayOfWeek;
  }

  lemma {:induction false} DayAndHoursDetermine(d: int, s: int, e: int, d': int, s': int, e': int)
    requires 1 <= d <= 5 && 1 <= d' <= 5
    requires 0 <= s < e <= 23 && 0 <= s' < e' <= 23
    requires IntToString(d) + (IntToString(s) + IntToString(e))
          == IntToString(d') + (IntToString(s') + IntToString(e'))
    ensures d == d' && s == s' && e == e'
  {
    var t, t' := IntToString(d) + (IntToString(s) + IntToString(e)), IntToString(d') + (IntToString(s') + IntToString(e'));
    HourText(d);
    HourText(d');
    assert t[0] == IntToString(d)[0] && t'[0] == IntToString(d')[0];
    DigitDetermines(d, d');
    assert t[1..] == IntToString(s) + IntToString(e);
    assert t'[1..] == IntToString(s') + IntToString(e');
    HoursDetermine(s, e, s', e');
  }

  /** str(n) for an hour of the day: one digit below 10, two from 10 on. */
  lemma {:induction false} HourText(n: int)
    requires 0 <= n <= 23
    ensures |IntToString(n)| == if n < 10 then 1 else 2
  {
    assert IntToString(n) == NatToString(n);
    if n >= 10 {
      assert NatToString(n) == NatToString(n / 10) + [DigitChar(n % 10)];
    }
  }

  lemma {:induction false} DigitDetermines(m: int, n: int)
    requires 0 <= m < 10 && 0 <= n < 10
    requires IntToString(m)[0] == IntToString(n)[0]
    ensures m == n
  {
    assert IntToString(m) == [DigitChar(m)] && IntToString(n) == [DigitChar(n)];
    assert DigitValue(DigitChar(m)) == m && DigitValue(DigitChar(n)) == n;
  }

  lemma {:induction false} StringDetermines(m: int, n: int)
    requires 0 <= m && 0 <= n
    requires IntToString(m) == IntToString(n)
    ensures m == n
  {
    ParseIntOfIntToString(m);
    ParseIntOfIntToString(n);
  }

  /** str(s) + str(e) determines s and e when 0 <= s < e <= 23. */
  lemma {:induction false} HoursDetermine(s: int, e: int, s': int, e': int)
    requires 0 <= s < e <= 23 && 0 <= s' < e' <= 23
    requires IntToString(s) + IntToString(e) == IntToString(s') + IntToString(e')
    ensures s == s' && e == e'
  {
    var x, y, x', y' := IntToString(s), IntToString(e), IntToString(s'), IntToString(e');
    HourText(s);
    HourText(e);
    HourText(s');
    HourText(e');
    if |x| == |x'| {
      assert x == (x + y)[..|x|] == (x' + y')[..|x'|] == x';
      assert y == (x + y)[|x|..] == (x' + y')[|x'|..] == y';
      StringDetermines(s, s');
      StringDetermines(e, e');
    } else {
      assert false;
    }
  }

  /** Without the start-before-end condition two slots can share a signature: 1 to 12 and 11
      to 2 on the same day both give "X1112". */
  lemma {:induction false} SignatureCollision()
    ensures Signature(LectureSlot("X", "Monday", 1, 1, 12)) == Signature(LectureSlot("X", "Monday", 1, 11, 2))
  {
    assert NatToString(12) == "12" && NatToString(11) == "11";
  }

  // ---------------------------------------------------------------------------------------
  // Reading the timeslots of a course

  /** The packages' size: grouping is closed once it holds sections slots, and it always holds
      at least one. */
  function GroupSize(sections: int): (size: nat)
    ensures size >= 1 && (sections >= 1 ==> size == sections)
  {
    if sections > 1 then sections else 1
  }

  /** The complete groups of size slots, in order. */
  function Chunk(slots: seq<LectureSlot>, size: nat): seq<LecturePackage>
    requires size >= 1
    decreases |slots|
  {
    if |slots| < size then [] else [slots[..size]] + Chunk(slots[size..], size)
  }

  /** The slots after the last complete group. */
  function Remainder(slots: seq<LectureSlot>, size: nat): seq<LectureSlot>
    requires size >= 1
    decreases |slots|
  {
    if |slots| < size then slots else Remainder(slots[size..], size)
  }

  /** Every group has size slots, and the groups followed by the remainder are the slots: only
      a trailing partial group, shorter than size, is left over. */
  lemma {:induction false} ChunkCorrect(slots: seq<LectureSlot>, size: nat)
    requires size >= 1
    ensures forall g :: g in Chunk(slots, size) ==> |g| == size
    ensures Concat(Chunk(slots, size)) + Remainder(slots, size) == slots
    ensures |Remainder(slots, size)| < size
  {
    ChunkSizes(slots, size);
    ChunkConcat(slots, size);
  }

  lemma {:induction false} ChunkSizes(slots: seq<LectureSlot>, size: nat)
    requires size >= 1
    ensures forall g :: g in Chunk(slots, size) ==> |g| == size
    ensures |Remainder(slots, size)| < size
    decreases |slots|
  {
    if |slots| >= size {
      ChunkSizes(slots[size..], size);
    }
  }

  lemma {:induction false} ChunkConcat(slots: seq<LectureSlot>, size: nat)
    requires size >= 1
    ensures Concat(Chunk(slots, size)) + Remainder(slots, size) == slots
    decreases |slots|
  {
    if |slots| >= size {
      var rest := slots[size..];
      ChunkConcat(rest, size);
      ConcatCons(slots[..size], Chunk(rest, size));
      AppendAssoc(slots[..size], Concat(Chunk(rest, size)), Remainder(rest, size));
      SplitAtIndex(slots, size);
    } else {
      assert Concat<LectureSlot>([]) == [];
    }
  }

  /** One more slot: it joins the pending group, which is closed once it has size slots. */
  lemma {:induction false} ChunkSnoc(slots: seq<LectureSlot>, x: LectureSlot, size: nat)
    requires size >= 1
    ensures |Remainder(slots, size)| < size
    ensures |Remainder(slots, size)| + 1 == size
            ==> Chunk(slots + [x], size) == Chunk(slots, size) + [Remainder(slots, size) + [x]]
                && Remainder(slots + [x], size) == []
    ensures |Remainder(slots, size)| + 1 < size
            ==> Chunk(slots + [x], size) == Chunk(slots, size)
                && Remainder(slots + [x], size) == Remainder(slots, size) + [x]
    decreases |slots|
  {
    if |slots| < size {
      if |slots| + 1 == size {
        assert (slots + [x])[..size] == slots + [x];
        assert (slots + [x])[size..] == [];
      }
    } else {
      ChunkSnoc(slots[size..], x, size);
      assert (slots + [x])[..size] == slots[..size];
      assert (slots + [x])[size..] == slots[size..] + [x];
    }
  }

  /** The slots read before the first line that fails to parse, and that failure. */
  datatype Parsed = Parsed(slots: seq<LectureSlot>, failure: Option<Exception>)

  /** process_input on each line in turn, stopping at the first exception. */
  function ParseAll(lines: seq<string>, courseName: string): (p: Parsed)
    ensures forall x :: x in p.slots ==> x.courseName == courseName && WellFormed(x)
    ensures |p.slots| <= |lines|
    decreases |lines|
  {
    if lines == [] then Parsed([], None)
    else
      var before := ParseAll(lines[..|lines| - 1], courseName);
      if before.failure.Some? then before
      else
        match ProcessInput(lines[|lines| - 1], courseName)
        case Ok(slot) => Parsed(before.slots + [slot], None)
        case Err(e) => Parsed(before.slots, Some(e))
  }

  /** Once a line fails, later lines are not read. */
  lemma {:induction false} ParseAllStops(lines: seq<string>, more: seq<string>, courseName: string)
    requires ParseAll(lines, courseName).failure.Some?
    ensures ParseAll(lines + more, courseName) == ParseAll(lines, courseName)
    decreases |more|
  {
    if more == [] {
      assert lines + more == lines;
    } else {
      ParseAllStops(lines, more[..|more| - 1], courseName);
      assert (lines + more)[..|lines + more| - 1] == lines + more[..|more| - 1];
    }
  }

  /** The position of the first empty line, or the number of lines when none is empty. */
  function FirstEmpty(lines: seq<string>): (n: nat)
    ensures n <= |lines|
    ensures forall k :: 0 <= k < n ==> lines[k] != ""
    ensures n < |lines| ==> lines[n] == ""
    decreases |lines|
  {
    if lines == [] || lines[0] == "" then 0 else 1 + FirstEmpty(lines[1..])
  }

  /** The slots read_lecture_timeslots parses: those of the lines before the first empty one. */
  function Read(lines: seq<string>, courseName: string): Parsed
  {
    ParseAll(lines[..FirstEmpty(lines)], courseName)
  }

  /** The packages read_lecture_timeslots appends: the complete groups of the slots read, each
      unless an earlier group had the same signature. */
  function Accepted(lines: seq<string>, courseName: string, sections: int): seq<LecturePackage>
  {
    DedupBy(Chunk(Read(lines, courseName).slots, GroupSize(sections)), GetInfo)
  }

  /** How read_lecture_timeslots ends: the exception of the first line that fails; EOFError
      when the input runs out before an empty line; otherwise normally, after reading the
      number of lines given (the empty line included). */
  function Outcome(lines: seq<string>, courseName: string): Result<nat>
  {
    var n := FirstEmpty(lines);
    var read := ParseAll(lines[..n], courseName);
    if read.failure.Some? then Err(read.failure.value)
    else if n == |lines| then Err(EOFError)
    else Ok(n + 1)
  }

  /** read_lecture_timeslots, with the lines the user types given as lines: parses each line
      until an empty one, groups the slots GroupSize(sections) at a time, and appends each
      group to courses[courseName] unless a group with the same signature was appended before
      in this call. Groups appended before an exception stay appended. */
  method ReadLectureTimeslots(courses: CourseOptions, courseName: string, sections: int, lines: seq<string>)
    returns (r: Result<nat>)
    requires courses.Valid() && courseName in courses.options
    modifies courses
    ensures courses.Valid()
    ensures courses.names == old(courses.names)
    ensures courses.options
         == old(courses.options)[courseName := old(courses.options)[courseName] + Accepted(lines, courseName, sections)]
    ensures r == Outcome(lines, courseName)
  {
    var alreadyProcessed: set<set<string>> := {};
    var grouping: seq<LectureSlot> := [];
    ghost var slots: seq<LectureSlot> := [];
    ghost var before := old(courses.options)[courseName];
    ghost var size := GroupSize(sections);
    var i := 0;
    assert Chunk([], GroupSize(sections)) == [];
    assert before + DedupBy(Chunk(slots, size), GetInfo) == before;
    while i < |lines| && lines[i] != ""
      invariant i <= FirstEmpty(lines)
      invariant ParseAll(lines[..i], courseName) == Parsed(slots, None)
      invariant grouping == Remainder(slots, size)
      invariant alreadyProcessed == KeysOf(Chunk(slots, size), GetInfo)
      invariant courses.Valid() && courses.names == old(courses.names)
      invariant courses.options == old(courses.options)[courseName := before + DedupBy(Chunk(slots, size), GetInfo)]
    {
      var parsed := ProcessInput(lines[i], courseName);
      if parsed.Err? {
        FailureOutcome(lines, courseName, sections, i, slots);
        return Err(parsed.error);
      }
      ReadStep(lines, courseName, i, slots);
      assert i + 1 <= FirstEmpty(lines);
      UpdateTwice(old(courses.options), courseName, before + DedupBy(Chunk(slots, size), GetInfo),
                  before + DedupBy(Chunk(slots + [parsed.value], size), GetInfo));
      grouping, alreadyProcessed := AddSlot(courses, courseName, sections, grouping, alreadyProcessed, parsed.value, slots, before);
      slots := slots + [parsed.value];
      i := i + 1;
    }
    Finish(lines, courseName, sections, i, slots);
    if i == |lines| {
      return Err(EOFError);
    }
    return Ok(i + 1);
  }

  /** The body of read_lecture_timeslots' loop once a line has parsed to slot: slot joins the
      open group; a group of sections slots is closed, and appended to courses[courseName]
      unless its signature was recorded before. With slots the slots read before, the open
      group and the recorded signatures stay those of slots + [slot] and the packages
      appended stay the deduplicated complete groups. */
  method AddSlot(courses: CourseOptions, courseName: string, sections: int, grouping: seq<LectureSlot>,
                 alreadyProcessed: set<set<string>>, slot: LectureSlot, ghost slots: seq<LectureSlot>,
                 ghost before: seq<LecturePackage>)
    returns (grouping': seq<LectureSlot>, alreadyProcessed': set<set<string>>)
    requires courses.Valid() && courseName in courses.options
    requires grouping == Remainder(slots, GroupSize(sections))
    requires alreadyProcessed == KeysOf(Chunk(slots, GroupSize(sections)), GetInfo)
    requires courses.options[courseName] == before + DedupBy(Chunk(slots, GroupSize(sections)), GetInfo)
    modifies courses
    ensures courses.Valid() && courses.names == old(courses.names)
    ensures grouping' == Remainder(slots + [slot], GroupSize(sections))
    ensures alreadyProcessed' == KeysOf(Chunk(slots + [slot], GroupSize(sections)), GetInfo)
    ensures courses.options
         == old(courses.options)[courseName := before + DedupBy(Chunk(slots + [slot], GroupSize(sections)), GetInfo)]
  {
    var size := GroupSize(sections);
    grouping' := grouping + [slot];
    if |grouping'| >= sections {
      GroupClosed(slots, slot, sections);
      var lectureInfo := GetInfo(grouping');
      if lectureInfo !in alreadyProcessed {
        assert (before + DedupBy(Chunk(slots, size), GetInfo)) + [grouping'] == before + (DedupBy(Chunk(slots, size), GetInfo) + [grouping']);
        courses.AppendPackage(courseName, grouping');
        alreadyProcessed' := alreadyProcessed + {lectureInfo};
      } else {
        alreadyProcessed' := alreadyProcessed;
        assert alreadyProcessed + {lectureInfo} == alreadyProcessed;
        assert courses.options[courseName := courses.options[courseName]] == courses.options;
      }
      grouping' := [];
    } else {
      GroupOpen(slots, slot, sections);
      alreadyProcessed' := alreadyProcessed;
      assert courses.options[courseName := courses.options[courseName]] == courses.options;
    }
  }

  /** Reading stops at the first empty line or at the end of the input, with everything read
      accepted. */
  lemma {:induction false} Finish(lines: seq<string>, courseName: string, sections: int, i: nat, slots: seq<LectureSlot>)
    requires i <= FirstEmpty(lines)
    requires ParseAll(lines[..i], courseName) == Parsed(slots, None)
    requires i == |lines| || lines[i] == ""
    ensures Accepted(lines, courseName, sections) == DedupBy(Chunk(slots, GroupSize(sections)), GetInfo)
    ensures Outcome(lines, courseName) == if i == |lines| then Err(EOFError) else Ok(i + 1)
  {
    assert i == FirstEmpty(lines);
  }

  /** Setting a key twice leaves the second value. */
  lemma {:induction false} UpdateTwice(m: map<string, seq<LecturePackage>>, k: string, a: seq<LecturePackage>, b: seq<LecturePackage>)
    ensures m[k := a][k := b] == m[k := b]
  {
  }

  /** The first b lines are the first a followed by those from a to b. */
  lemma {:induction false} PrefixSplit(lines: seq<string>, a: nat, b: nat)
    requires a <= b <= |lines|
    ensures lines[..a] + lines[a..b] == lines[..b]
  {
  }

  /** A line that parses adds its slot to those read so far. */
  lemma {:induction false} ReadStep(lines: seq<string>, courseName: string, i: nat, slots: seq<LectureSlot>)
    requires i < |lines|
    requires ParseAll(lines[..i], courseName) == Parsed(slots, None)
    requires ProcessInput(lines[i], courseName).Ok?
    ensures ParseAll(lines[..i + 1], courseName) == Parsed(slots + [ProcessInput(lines[i], courseName).value], None)
  {
    PrefixSnoc(lines, i);
  }

  /** A slot that completes the pending group adds that group to the chunks, and to the
      accepted packages when no earlier chunk has its signature. */
  lemma {:induction false} GroupClosed(slots: seq<LectureSlot>, x: LectureSlot, sections: int)
    requires |Remainder(slots, GroupSize(sections))| + 1 >= sections
    ensures var size, g := GroupSize(sections), Remainder(slots, GroupSize(sections)) + [x];
            && Remainder(slots + [x], size) == []
            && KeysOf(Chunk(slots + [x], size), GetInfo) == KeysOf(Chunk(slots, size), GetInfo) + {GetInfo(g)}
            && (GetInfo(g) in KeysOf(Chunk(slots, size), GetInfo)
                ==> DedupBy(Chunk(slots + [x], size), GetInfo) == DedupBy(Chunk(slots, size), GetInfo))
            && (GetInfo(g) !in KeysOf(Chunk(slots, size), GetInfo)
                ==> DedupBy(Chunk(slots + [x], size), GetInfo) == DedupBy(Chunk(slots, size), GetInfo) + [g])
  {
    var size := GroupSize(sections);
    ChunkSnoc(slots, x, size);
    DedupBySnoc(Chunk(slots, size), Remainder(slots, size) + [x], GetInfo);
  }

  /** A slot that leaves the pending group short of sections slots only extends that group. */
  lemma {:induction false} GroupOpen(slots: seq<LectureSlot>, x: LectureSlot, sections: int)
    requires |Remainder(slots, GroupSize(sections))| + 1 < sections
    ensures Remainder(slots + [x], GroupSize(sections)) == Remainder(slots, GroupSize(sections)) + [x]
    ensures Chunk(slots + [x], GroupSize(sections)) == Chunk(slots, GroupSize(sections))
  {
    ChunkSnoc(slots, x, GroupSize(sections));
  }

  /** When line i, before the first empty line, is the first that fails, reading stops there
      with its exception, and the groups of the slots before it are the ones appended. */
  lemma {:induction false} FailureOutcome(lines: seq<string>, courseName: string, sections: int, i: nat, slots: seq<LectureSlot>)
    requires i < FirstEmpty(lines)
    requires ParseAll(lines[..i], courseName) == Parsed(slots, None)
    requires ProcessInput(lines[i], courseName).Err?
    ensures Outcome(lines, courseName) == Err(ProcessInput(lines[i], courseName).error)
    ensures Accepted(lines, courseName, sections) == DedupBy(Chunk(slots, GroupSize(sections)), GetInfo)
  {
    var n := FirstEmpty(lines);
    var e := ProcessInput(lines[i], courseName).error;
    FailedLine(lines, courseName, i, slots);
    ParseAllStops(lines[..i + 1], lines[i + 1..n], courseName);
    PrefixSplit(lines, i + 1, n);
  }

  /** A line that fails ends the parse with its exception. */
  lemma {:induction false} FailedLine(lines: seq<string>, courseName: string, i: nat, slots: seq<LectureSlot>)
    requires i < |lines|
    requires ParseAll(lines[..i], courseName) == Parsed(slots, None)
    requires ProcessInput(lines[i], courseName).Err?
    ensures ParseAll(lines[..i + 1], courseName) == Parsed(slots, Some(ProcessInput(lines[i], courseName).error))
  {
    PrefixSnoc(lines, i);
  }

  /** What read_lecture_timeslots appends: complete groups of GroupSize(sections) slots of
      courseName, in input order (a subsequence of all complete groups), no two with the same
      signature and so no package twice. */
  lemma {:induction false} AcceptedPackages(lines: seq<string>, courseName: string, sections: int)
    ensures forall g :: g in Accepted(lines, courseName, sections) ==> |g| == GroupSize(sections)
    ensures forall g, x :: g in Accepted(lines, courseName, sections) && x in g
                           ==> x.courseName == courseName && WellFormed(x)
    ensures Subsequence(Accepted(lines, courseName, sections),
                        Chunk(Read(lines, courseName).slots, GroupSize(sections)))
    ensures DistinctKeys(Accepted(lines, courseName, sections), GetInfo)
    ensures NoDuplicates(Accepted(lines, courseName, sections))
  {
    var slots := Read(lines, courseName).slots;
    var size := GroupSize(sections);
    var chunks := Chunk(slots, size);
    var accepted := Accepted(lines, courseName, sections);
    ChunkCorrect(slots, size);
    DedupByIsSubsequence(chunks, GetInfo);
    DedupByDistinctKeys(chunks, GetInfo);
    forall g, x | g in accepted && x in g
      ensures x.courseName == courseName && WellFormed(x)
    {
      DedupByMember(chunks, GetInfo, g);
      ChunkMember(slots, size, g, x);
    }
    forall g | g in accepted
      ensures |g| == size
    {
      DedupByMember(chunks, GetInfo, g);
    }
  }

  lemma {:induction false} ChunkMember(slots: seq<LectureSlot>, size: nat, g: LecturePackage, x: LectureSlot)
    requires size >= 1 && g in Chunk(slots, size) && x in g
    ensures x in slots
  {
    ChunkCorrect(slots, size);
    var i :| 0 <= i < |Chunk(slots, size)| && Chunk(slots, size)[i] == g;
    ConcatMember(Chunk(slots, size), x);
  }

  /** No slots are lost but a trailing partial group: the slots read are the complete groups
      followed by fewer than GroupSize(sections) more. */
  lemma {:induction false} OnlyPartialGroupDropped(lines: seq<string>, courseName: string, sections: int)
    ensures var slots := Read(lines, courseName).slots;
            var size := GroupSize(sections);
            Concat(Chunk(slots, size)) + Remainder(slots, size) == slots && |Remainder(slots, size)| < size
  {
    ChunkCorrect(Read(lines, courseName).slots, GroupSize(sections));
  }
}
