/**
 The flag that tells a child process which death test to run: written by the parent,
 split and parsed by the child, and consulted each time the test body creates a death test.
 */
module DeathTestFlag {
  import opened Common
  import opened Strings

  // ------------------------------------------------------------ numbers

  const INT_LIMIT := 0x8000_0000
  const ULL_LIMIT := 0x1_0000_0000_0000_0000

  predicate IsInt(n: int) {
    -INT_LIMIT <= n < INT_LIMIT
  }

  predicate AllDigits(s: string) {
    forall i | 0 <= i < |s| :: IsDigit(s[i])
  }

  /** What decimal digits denote. */
  function DecimalValue(s: string): nat
    requires AllDigits(s)
  {
    if s == "" then 0 else DecimalValue(s[..|s| - 1]) * 10 + (s[|s| - 1] as int - '0' as int)
  }

  /** A number as the stream inserter prints it. */
  function Decimal(n: nat): (s: string)
    ensures s != "" && AllDigits(s)
  {
    if n < 10 then ['0' + n as char] else Decimal(n / 10) + ['0' + (n % 10) as char]
  }

  function StreamableToString(n: int): string {
    if n < 0 then "-" + Decimal(-n) else Decimal(n)
  }

  lemma {:induction false} DecimalRoundTrip(n: nat)
    ensures DecimalValue(Decimal(n)) == n
  {
    if n < 10 {
      var s := Decimal(n);
      assert s[..0] == "" && DecimalValue(s) == DecimalValue(s[..0]) * 10 + n;
    } else {
      DecimalRoundTrip(n / 10);
      assert Decimal(n)[..|Decimal(n)| - 1] == Decimal(n / 10);
    }
  }

  /** The leading decimal digits of a C string. */
  function Digits(s: string): (n: nat)
    ensures n <= |s| && AllDigits(s[..n]) && (n < |s| ==> !IsDigit(s[n]))
  {
    if s == "" || !IsDigit(s[0]) then 0
    else
      var n := 1 + Digits(s[1..]);
      assert s[..n] == [s[0]] + s[1..][..n - 1];
      n
  }

  datatype Strtoull = Strtoull(parsed: nat, end: nat, outOfRange: bool)

  /** The C library's conversion of text that starts with a digit: it stops at the first other character and saturates. */
  function Convert(s: string): Strtoull {
    var n := Digits(s);
    var v := DecimalValue(s[..n]);
    if v < ULL_LIMIT then Strtoull(v, n, false) else Strtoull(ULL_LIMIT - 1, n, true)
  }

  /** Conversion of an unsigned 64-bit value to int, keeping the low 32 bits. */
  function ToInt(v: nat): (r: int)
    ensures IsInt(r)
  {
    var low := v % (2 * INT_LIMIT);
    if low < INT_LIMIT then low else low - 2 * INT_LIMIT
  }

  /** Conversion of an int to an unsigned 64-bit value, extending the sign. */
  function ToUnsigned(n: int): (r: nat)
    requires IsInt(n)
  {
    if n < 0 then n + ULL_LIMIT else n
  }

  /** The int a text denotes: all digits, and a value that survives the conversion to int and back. */
  function NaturalNumber(str: string): Option<int> {
    var t := CString(str);
    if t == "" || !AllDigits(t) then None
    else
      var v := DecimalValue(t);
      if v < INT_LIMIT then Some(v)
      else if ULL_LIMIT - INT_LIMIT <= v < ULL_LIMIT then Some(v - ULL_LIMIT)
      else None
  }

  lemma {:induction false} DigitsToEnd(s: string)
    ensures AllDigits(CString(s)) <==> Digits(s) == |s| || s[Digits(s)] == '\0'
    ensures AllDigits(CString(s)) ==> CString(s) == s[..Digits(s)]
  {
    var n, k := Digits(s), IndexOf(s, '\0');
    assert forall i | 0 <= i < n :: s[..n][i] == s[i];
    assert n <= k;
    if n < k {
      assert CString(s)[n] == s[n];
      assert s[n] in s[..k];
    }
  }

  lemma {:induction false} SurvivesConversion(v: nat)
    requires v < ULL_LIMIT
    ensures ToUnsigned(ToInt(v)) == v <==> v < INT_LIMIT || ULL_LIMIT - INT_LIMIT <= v
    ensures v < INT_LIMIT ==> ToInt(v) == v
    ensures ULL_LIMIT - INT_LIMIT <= v ==> ToInt(v) == v - ULL_LIMIT
  {
  }

  method ParseNaturalNumber(str: string) returns (ok: bool, number: int)
    ensures ok <==> NaturalNumber(str).Some?
    ensures ok ==> number == NaturalNumber(str).value
  {
    number := -1;
    if str == "" || !IsDigit(str[0]) {
      return false, number;
    }
    DigitsToEnd(str);
    var conversion := Convert(str);
    var parseSuccess := (conversion.end == |str| || str[conversion.end] == '\0') && !conversion.outOfRange;
    var result := ToInt(conversion.parsed);
    SurvivesConversion(conversion.parsed);
    if parseSuccess && ToUnsigned(result) == conversion.parsed {
      return true, result;
    }
    return false, number;
  }

  lemma {:induction false} DigitsArePlain(s: string, c: char)
    requires AllDigits(s) && !IsDigit(c)
    ensures c !in s
  {
  }

  /**
   What becomes of a printed number: it is read back if and only if it is below 2^31, and the
   values within 2^31 of 2^64 are taken for negative ones although only naturals are documented.
   */
  lemma {:induction false} PrintedNumberIsRead(n: nat)
    ensures NaturalNumber(Decimal(n)) ==
            if n < INT_LIMIT then Some(n)
            else if ULL_LIMIT - INT_LIMIT <= n < ULL_LIMIT then Some(n - ULL_LIMIT)
            else None
  {
    DecimalRoundTrip(n);
    DigitsArePlain(Decimal(n), '\0');
    assert CString(Decimal(n)) == Decimal(n);
  }

  lemma {:induction false} PrintedIntIsRead(n: int)
    requires IsInt(n)
    ensures NaturalNumber(StreamableToString(n)) == if n < 0 then None else Some(n)
  {
    if n < 0 {
      var s := StreamableToString(n);
      assert IndexOf(s, '\0') > 0 && CString(s)[0] == '-';
    } else {
      PrintedNumberIsRead(n);
    }
  }

  // ------------------------------------------------------------ the flag

  datatype Flag = Flag(file: string, line: int, index: int, writeFd: int)

  /** The value of the flag: absent, unusable (the process aborts), or the death test to run. */
  datatype ParsedFlag = Absent | Bad | Present(flag: Flag)

  function FlagText(flag: Flag): string {
    flag.file + ['|'] + (StreamableToString(flag.line) + ['|'] +
      (StreamableToString(flag.index) + ['|'] + StreamableToString(flag.writeFd)))
  }

  lemma {:induction false} NextField(t: string, sep: char)
    ensures var k := IndexOf(t, sep);
            Split(t, sep) == if k == |t| then [t] else [t[..k]] + Split(t[k + 1..], sep)
  {
    hide IndexOf;
  }

  method SplitString(str: string, delimiter: char) returns (dest: seq<string>)
    ensures dest == Split(str, delimiter)
  {
    hide Split, IndexOf;
    dest := [];
    var pos := 0;
    assert str[0..] == str;
    while true
      invariant pos <= |str| && dest + Split(str[pos..], delimiter) == Split(str, delimiter)
      decreases |str| - pos
    {
      var colon := pos + IndexOf(str[pos..], delimiter);
      NextField(str[pos..], delimiter);
      if colon == |str| {
        dest := dest + [str[pos..]];
        break;
      } else {
        assert str[pos..][..colon - pos] == str[pos..colon] && str[pos..][colon - pos + 1..] == str[colon + 1..];
        assert dest + Split(str[pos..], delimiter) == dest + [str[pos..colon]] + Split(str[colon + 1..], delimiter);
        dest := dest + [str[pos..colon]];
        pos := colon + 1;
      }
    }
  }

  function FieldsAsFlag(fields: seq<string>): ParsedFlag {
    if |fields| != 4 then Bad
    else
      match (NaturalNumber(fields[1]), NaturalNumber(fields[2]), NaturalNumber(fields[3]))
      case (Some(line), Some(index), Some(fd)) => Present(Flag(fields[0], line, index, fd))
      case _ => Bad
  }

  function Parsed(text: string): ParsedFlag {
    if text == "" then Absent else FieldsAsFlag(Split(CString(text), '|'))
  }

  method ParseInternalRunDeathTestFlag(text: string) returns (r: ParsedFlag)
    ensures r == Parsed(text)
    ensures r.Absent? <==> text == ""
    ensures var fields := Split(CString(text), '|');
            r.Present? ==>
              && |fields| == 4 && r.flag.file == fields[0] && NaturalNumber(fields[1]) == Some(r.flag.line)
              && NaturalNumber(fields[2]) == Some(r.flag.index) && NaturalNumber(fields[3]) == Some(r.flag.writeFd)
  {
    if text == "" {
      return Absent;
    }
    var fields := SplitString(CString(text), '|');
    if |fields| != 4 {
      return Bad;
    }
    var lineOk, line := ParseNaturalNumber(fields[1]);
    var indexOk, index := ParseNaturalNumber(fields[2]);
    var fdOk, writeFd := ParseNaturalNumber(fields[3]);
    return if lineOk && indexOk && fdOk then Present(Flag(fields[0], line, index, writeFd)) else Bad;
  }

  lemma {:induction false} NumberIsPlain(n: int, c: char)
    requires !IsDigit(c) && c != '-'
    ensures c !in StreamableToString(n)
  {
    DigitsArePlain(Decimal(if n < 0 then -n else n), c);
  }

  lemma {:induction false} SplitConcat(a: string, b: string, sep: char)
    ensures Split(a + [sep] + b, sep) == Split(a, sep) + Split(b, sep)
    decreases |a|
  {
    hide Split, IndexOf;
    var k := IndexOf(a, sep);
    NextField(a, sep);
    if k == |a| {
      SplitFirst(a, b, sep);
    } else {
      var rest := a[k + 1..] + [sep] + b;
      calc {
        Split(a + [sep] + b, sep);
        { assert a + [sep] + b == a[..k] + [sep] + rest; }
        Split(a[..k] + [sep] + rest, sep);
        { SplitFirst(a[..k], rest, sep); }
        [a[..k]] + Split(rest, sep);
        { SplitConcat(a[k + 1..], b, sep); }
        [a[..k]] + (Split(a[k + 1..], sep) + Split(b, sep));
        Split(a, sep) + Split(b, sep);
      }
    }
  }

  lemma {:induction false} SplitPlain(s: string, sep: char)
    requires sep !in s
    ensures Split(s, sep) == [s]
  {
    hide Split, IndexOf;
    NextField(s, sep);
  }

  lemma {:induction false} FlagFields(flag: Flag)
    ensures Split(FlagText(flag), '|') == Split(flag.file, '|') +
              [StreamableToString(flag.line), StreamableToString(flag.index), StreamableToString(flag.writeFd)]
  {
    hide Split, StreamableToString;
    var line, index, fd :=
      StreamableToString(flag.line), StreamableToString(flag.index), StreamableToString(flag.writeFd);
    NumberIsPlain(flag.line, '|');
    NumberIsPlain(flag.index, '|');
    NumberIsPlain(flag.writeFd, '|');
    SplitPlain(fd, '|');
    SplitFirst(index, fd, '|');
    SplitFirst(line, index + ['|'] + fd, '|');
    SplitConcat(flag.file, line + ['|'] + (index + ['|'] + fd), '|');
  }

  lemma {:induction false} FlagTextIsCString(flag: Flag)
    requires '\0' !in flag.file
    ensures FlagText(flag) != "" && CString(FlagText(flag)) == FlagText(flag)
  {
    NumberIsPlain(flag.line, '\0');
    NumberIsPlain(flag.index, '\0');
    NumberIsPlain(flag.writeFd, '\0');
    assert '\0' !in FlagText(flag);
  }

  /** What the types of the source guarantee: a C string and three ints. */
  predicate Typed(flag: Flag) {
    '\0' !in flag.file && IsInt(flag.line) && IsInt(flag.index) && IsInt(flag.writeFd)
  }

  predicate Transmissible(flag: Flag) {
    '|' !in flag.file && 0 <= flag.line && 0 <= flag.index && 0 <= flag.writeFd
  }

  /** The child reads back exactly the flag its parent wrote, if and only if the flag is transmissible; otherwise it aborts. */
  lemma {:induction false} FlagRoundTrip(flag: Flag)
    requires Typed(flag)
    ensures Parsed(FlagText(flag)) == if Transmissible(flag) then Present(flag) else Bad
  {
    hide Split, IndexOf, NaturalNumber, StreamableToString, CString;
    FlagTextIsCString(flag);
    FlagFields(flag);
    PrintedIntIsRead(flag.line);
    PrintedIntIsRead(flag.index);
    PrintedIntIsRead(flag.writeFd);
    var fields := Split(flag.file, '|');
    if '|' in flag.file {
      NextField(flag.file, '|');
      assert |fields| > 1;
    } else {
      SplitPlain(flag.file, '|');
      assert Split(FlagText(flag), '|')[0] == flag.file;
    }
  }

  // ------------------------------------------------------------ creating death tests

  datatype Call = Call(file: string, line: int)

  datatype Creation =
    | CountExceeded(index: int, maximum: int)
    | UnknownStyle
    | Skipped
    | Exec(call: Call)
    | NoExec

  /** The number of death tests the running test has created. */
  class TestResult {
    var deathTestCount: nat

    constructor ()
      ensures deathTestCount == 0
    {
      deathTestCount := 0;
    }

    method IncrementDeathTestCount() returns (n: nat)
      modifies this
      ensures n == deathTestCount == old(deathTestCount) + 1
    {
      deathTestCount := deathTestCount + 1;
      return deathTestCount;
    }
  }

  function CreationOf(flag: Option<Flag>, style: string, call: Call, index: nat): Creation {
    if flag.Some? && index > flag.value.index then CountExceeded(index, flag.value.index)
    else if flag.Some? && flag.value != Flag(call.file, call.line, index, flag.value.writeFd) then Skipped
    else if style == "threadsafe" then Exec(call)
    else if style == "fast" then NoExec
    else UnknownStyle
  }

  method Create(flag: Option<Flag>, style: string, result: TestResult, call: Call) returns (r: Creation)
    modifies result
    ensures result.deathTestCount == old(result.deathTestCount) + 1
    ensures r == CreationOf(flag, style, call, result.deathTestCount)
  {
    var index := result.IncrementDeathTestCount();
    if flag.Some? {
      if index > flag.value.index {
        return CountExceeded(index, flag.value.index);
      }
      if !(flag.value.file == call.file && flag.value.line == call.line && flag.value.index == index) {
        return Skipped;
      }
    }
    if style == "threadsafe" {
      return Exec(call);
    } else if style == "fast" {
      return NoExec;
    } else {
      return UnknownStyle;
    }
  }

  datatype Role = Oversee(childFlag: string) | Execute(writeFd: int)

  function RoleOf(flag: Option<Flag>, call: Call, count: nat, pipeFd: int): Role {
    if flag.Some? then Execute(flag.value.writeFd) else Oversee(FlagText(Flag(call.file, call.line, count, pipeFd)))
  }

  /**
   What a process does with a death test it created: run the statement, or start a child that
   will. The child reads from its flag exactly this death test, if it can be transmitted at all.
   */
  method AssumeRole(flag: Option<Flag>, result: TestResult, call: Call, pipeFd: int) returns (role: Role)
    ensures role == RoleOf(flag, call, result.deathTestCount, pipeFd)
    ensures role.Oversee? <==> flag.None?
    ensures var own := Flag(call.file, call.line, result.deathTestCount, pipeFd);
            role.Oversee? && Typed(own) ==> Parsed(role.childFlag) == if Transmissible(own) then Present(own) else Bad
    ensures role.Execute? ==> role.writeFd == flag.value.writeFd
  {
    if flag.Some? {
      return Execute(flag.value.writeFd);
    }
    hide Parsed, FlagText, Typed;
    ghost var own := Flag(call.file, call.line, result.deathTestCount, pipeFd);
    if Typed(own) {
      FlagRoundTrip(own);
    }
    return Oversee(FlagText(Flag(call.file, call.line, result.deathTestCount, pipeFd)));
  }

  /** One death test statement of a test body: not created, skipped, created with a role, or left to a fork. */
  datatype Step = NotCreated | Passed | Played(call: Call, role: Role) | Forked(call: Call)

  function StepOf(flag: Option<Flag>, style: string, call: Call, index: nat, pipeFd: int): Step {
    match CreationOf(flag, style, call, index)
    case Exec(c) => Played(c, RoleOf(flag, c, index, pipeFd))
    case NoExec => Forked(call)
    case Skipped => Passed
    case _ => NotCreated
  }

  /** The death test statements of a test body, made in the same order in every process. */
  function Steps(flag: Option<Flag>, style: string, calls: seq<Call>, pipeFds: seq<int>): seq<Step>
    requires |pipeFds| == |calls|
  {
    seq(|calls|, i requires 0 <= i < |calls| => StepOf(flag, style, calls[i], i + 1, pipeFds[i]))
  }

  method RunBody(flag: Option<Flag>, style: string, calls: seq<Call>, pipeFds: seq<int>) returns (steps: seq<Step>)
    requires |pipeFds| == |calls|
    ensures steps == Steps(flag, style, calls, pipeFds)
  {
    var result := new TestResult();
    steps := [];
    for i := 0 to |calls|
      invariant result.deathTestCount == i && steps == Steps(flag, style, calls, pipeFds)[..i]
    {
      var creation := Create(flag, style, result, calls[i]);
      match creation
      case Exec(c) =>
        var role := AssumeRole(flag, result, c, pipeFds[i]);
        steps := steps + [Played(c, role)];
      case NoExec =>
        steps := steps + [Forked(calls[i])];
      case Skipped =>
        steps := steps + [Passed];
      case _ =>
        steps := steps + [NotCreated];
    }
  }

  /** A process either aborts on its flag or runs the test body. */
  datatype Process = Aborted | Ran(steps: seq<Step>)

  function ProcessOf(flagText: string, style: string, calls: seq<Call>, pipeFds: seq<int>): Process
    requires |pipeFds| == |calls|
  {
    match Parsed(flagText)
    case Bad => Aborted
    case Absent => Ran(Steps(None, style, calls, pipeFds))
    case Present(flag) => Ran(Steps(Some(flag), style, calls, pipeFds))
  }

  method RunProcess(flagText: string, style: string, calls: seq<Call>, pipeFds: seq<int>) returns (p: Process)
    requires |pipeFds| == |calls|
    ensures p == ProcessOf(flagText, style, calls, pipeFds)
    ensures flagText == "" ==> p.Ran?
  {
    hide Steps;
    var parsed := ParseInternalRunDeathTestFlag(flagText);
    if parsed.Bad? {
      return Aborted;
    }
    var steps := RunBody(if parsed.Absent? then None else Some(parsed.flag), style, calls, pipeFds);
    return Ran(steps);
  }

  /** A process started by hand, without a flag, handles every death test by its style, and none when that is unknown. */
  lemma {:induction false} StyleDecides(style: string, calls: seq<Call>, pipeFds: seq<int>, i: nat)
    requires |pipeFds| == |calls| && i < |calls|
    ensures var p := ProcessOf("", style, calls, pipeFds);
            && p.Ran? && |p.steps| == |calls|
            && (p.steps[i].Played? <==> style == "threadsafe")
            && (p.steps[i].Played? ==> p.steps[i].role.Oversee?)
            && (p.steps[i] == Forked(calls[i]) <==> style == "fast")
            && (p.steps[i] == NotCreated <==> style != "threadsafe" && style != "fast")
  {
  }

  /** Whatever statements a process with a flag makes, it executes the one that agrees with the flag in file, line and number, and no other. */
  lemma {:induction false} ExecutesOnlyItsOwn(flag: Flag, calls: seq<Call>, pipeFds: seq<int>, i: nat)
    requires |pipeFds| == |calls| && i < |calls|
    ensures var step := Steps(Some(flag), "threadsafe", calls, pipeFds)[i];
            && (step.Played? <==> calls[i] == Call(flag.file, flag.line) && i + 1 == flag.index)
            && (step.Played? ==> step.role == Execute(flag.writeFd))
            && (step == NotCreated <==> i + 1 > flag.index)
  {
  }

  /**
   A process without a flag oversees every death test. The child it starts for the k-th one, given
   the text written for it, runs if and only if that text can be transmitted, and otherwise aborts.
   It passes over the statements before the k-th, executes that one, reporting through the
   descriptor it was given, and would refuse any later one. It never reaches one: a child that
   survives the statement it executes ends in Abort.
   */
  lemma {:induction false} ChildExecutesItsTest(calls: seq<Call>, pipeFds: seq<int>, childFds: seq<int>, k: nat)
    requires |pipeFds| == |childFds| == |calls| < INT_LIMIT && k < |calls|
    requires '\0' !in calls[k].file && IsInt(calls[k].line) && IsInt(pipeFds[k])
    ensures var parent := ProcessOf("", "threadsafe", calls, pipeFds);
            && parent.Ran? && |parent.steps| == |calls|
            && (forall i | 0 <= i < |calls| ::
                  parent.steps[i].Played? && parent.steps[i].call == calls[i] && parent.steps[i].role.Oversee?)
            && var child := ProcessOf(parent.steps[k].role.childFlag, "threadsafe", calls, childFds);
            && (child.Ran? <==> '|' !in calls[k].file && calls[k].line >= 0 && pipeFds[k] >= 0)
            && (child.Ran? ==>
                  && |child.steps| == |calls|
                  && (forall i | 0 <= i < k :: child.steps[i] == Passed)
                  && child.steps[k] == Played(calls[k], Execute(pipeFds[k]))
                  && (forall i | k < i < |calls| :: child.steps[i] == NotCreated))
  {
    EmptyIsAbsent();
    hide Parsed, FlagText;
    FlagRoundTrip(Flag(calls[k].file, calls[k].line, k + 1, pipeFds[k]));
  }

  lemma EmptyIsAbsent()
    ensures Parsed("") == Absent
  {
  }
}
