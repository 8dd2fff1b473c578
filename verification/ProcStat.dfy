/** Parsing one /proc/<pid>/stat line, whose command field may itself contain spaces and parentheses. */
module ProcStat {
  import opened Wrappers
  import opened PyText
  import Decimal

  datatype ParsedStat = ParsedStat(pid: int, command: string, ppid: int, cpuTicks: int, startTicks: int)

  datatype StatError = MalformedCommand | InvalidPid | TooFewFields | InvalidNumber | OutOfRange

  const MIN_FIELDS: nat := 20

  /** The line before its first '(', between that and its last ')', and after it. */
  function Cut(line: string): Option<(string, string, string)> {
    var open, close := Find(line, '('), FindLast(line, ')');
    if open.None? || close.None? || open.value == 0 || close.value <= open.value then None
    else Some((line[..open.value], line[open.value + 1..close.value], line[close.value + 1..]))
  }

  function ParseProcStat(text: string): Result<ParsedStat, StatError> {
    var parts := Cut(Strip(text));
    if parts.None? then Err(MalformedCommand) else ParseParts(parts.value.0, parts.value.1, parts.value.2)
  }

  function ParseParts(head: string, command: string, tail: string): Result<ParsedStat, StatError> {
    var pid := ParseInt(Strip(head));
    if pid.None? then Err(InvalidPid) else ParseFields(pid.value, command, Split(Strip(tail)))
  }

  function ParseFields(pid: int, command: string, fields: seq<string>): Result<ParsedStat, StatError> {
    if |fields| < MIN_FIELDS then Err(TooFewFields)
    else
      CheckNumbers(pid, command, ParseInt(fields[1]), ParseInt(fields[11]), ParseInt(fields[12]),
                   ParseInt(fields[19]))
  }

  function CheckNumbers(pid: int, command: string, ppid: Option<int>, user: Option<int>, system: Option<int>,
                        start: Option<int>): Result<ParsedStat, StatError> {
    if ppid.None? || user.None? || system.None? || start.None? then
      Err(InvalidNumber)
    else if pid <= 0 || ppid.value < 0 || user.value < 0 || system.value < 0 || start.value < 0 then
      Err(OutOfRange)
    else
      Ok(ParsedStat(pid, command, ppid.value, user.value + system.value, start.value))
  }

  /** The kernel's line: pid, command in parentheses, then the fields after it, single spaces between. */
  function PrintStat(pid: nat, command: string, fields: seq<string>): string {
    Decimal.Print(pid) + " (" + command + ") " + Join(fields)
  }

  /** Fields that cannot be mistaken for the end of the command. */
  predicate PlainFields(fields: seq<string>) {
    forall f :: f in fields ==> IsWord(f) && ')' !in f
  }

  lemma {:induction false} NoParenthesisInJoin(fields: seq<string>)
    requires PlainFields(fields)
    ensures ')' !in Join(fields)
  {
    if fields != [] {
      assert fields[0] in fields;
      NoParenthesisInJoin(fields[1..]);
    }
  }

  /** A text cut at its first '(' and last ')', both found. */
  lemma CutAt(head: string, command: string, tail: string)
    requires '(' !in head && ')' !in tail
    ensures var line := head + "(" + command + ")" + tail;
            Find(line, '(') == Some(|head|) && FindLast(line, ')') == Some(|head| + 1 + |command|)
  {
    var line := head + "(" + command + ")" + tail;
    FindAt(head, '(', command + ")" + tail);
    assert line == head + ['('] + (command + ")" + tail);
    FindLastAt(head + "(" + command, ')', tail);
    assert line == (head + "(" + command) + [')'] + tail;
  }

  lemma CutParts(head: string, command: string, tail: string)
    requires head != [] && '(' !in head && ')' !in tail
    ensures Cut(head + "(" + command + ")" + tail) == Some((head, command, tail))
  {
    var line := head + "(" + command + ")" + tail;
    CutAt(head, command, tail);
    assert line[..|head|] == head;
    assert line[|head| + 1..|head| + 1 + |command|] == command;
    assert line[|head| + 1 + |command| + 1..] == tail;
  }

  /** The line is cut at the first opening and the last closing parenthesis, whatever the command holds. */
  lemma LineIsCut(pid: nat, command: string, fields: seq<string>, trailing: string)
    requires fields != [] && PlainFields(fields) && AllSpace(trailing)
    ensures Cut(Strip(PrintStat(pid, command, fields) + trailing))
         == Some((Decimal.Print(pid) + " ", command, " " + Join(fields)))
  {
    LineIsStripped(pid, command, fields, trailing);
    var head, tail := Decimal.Print(pid) + " ", " " + Join(fields);
    NoParenthesisInJoin(fields);
    assert PrintStat(pid, command, fields) == head + "(" + command + ")" + tail;
    CutParts(head, command, tail);
  }

  lemma LineIsStripped(pid: nat, command: string, fields: seq<string>, trailing: string)
    requires fields != [] && PlainFields(fields) && AllSpace(trailing)
    ensures Strip(PrintStat(pid, command, fields) + trailing) == PrintStat(pid, command, fields)
  {
    var line := PrintStat(pid, command, fields);
    JoinEnds(fields);
    assert line[0] == Decimal.Print(pid)[0] && Decimal.Print(pid)[0] in Decimal.Print(pid);
    assert line[|line| - 1] == Join(fields)[|Join(fields)| - 1];
    StripAround("", line, trailing);
    assert "" + line + trailing == line + trailing;
  }

  lemma FieldsAreParsed(pid: nat, command: string, fields: seq<string>,
                        ppid: nat, user: nat, system: nat, start: nat)
    requires pid > 0 && |fields| >= 20
    requires ParseInt(fields[1]) == Some(ppid) && ParseInt(fields[11]) == Some(user)
    requires ParseInt(fields[12]) == Some(system) && ParseInt(fields[19]) == Some(start)
    ensures ParseFields(pid, command, fields) == Ok(ParsedStat(pid, command, ppid, user + system, start))
  {
  }

  /**
   The parser undoes the printer: for every command and every white space after the line, it recovers
   pid, command, parent, start time and the sum of the two CPU times.
   */
  lemma ParseUndoesPrint(pid: nat, command: string, fields: seq<string>, trailing: string,
                         ppid: nat, user: nat, system: nat, start: nat)
    requires pid > 0 && |fields| >= 20 && PlainFields(fields) && AllSpace(trailing)
    requires fields[1] == Decimal.Print(ppid) && fields[11] == Decimal.Print(user)
    requires fields[12] == Decimal.Print(system) && fields[19] == Decimal.Print(start)
    ensures ParseProcStat(PrintStat(pid, command, fields) + trailing)
         == Ok(ParsedStat(pid, command, ppid, user + system, start))
  {
    LineIsCut(pid, command, fields, trailing);
    FieldsAreRead(pid, command, fields);
    ParsePlain(ppid);
    ParsePlain(user);
    ParsePlain(system);
    ParsePlain(start);
    FieldsAreParsed(pid, command, fields, ppid, user, system, start);
  }

  lemma ParsePlain(n: nat)
    ensures ParseInt(Decimal.Print(n)) == Some(n)
  {
    ParseIntOfPrint("", n, "");
    assert "" + Decimal.Print(n) + "" == Decimal.Print(n);
  }

  lemma FieldsAreRead(pid: nat, command: string, fields: seq<string>)
    requires fields != [] && PlainFields(fields)
    ensures ParseInt(Strip(Decimal.Print(pid) + " ")) == Some(pid)
    ensures Split(Strip(" " + Join(fields))) == fields
  {
    var digits := Decimal.Print(pid);
    assert digits[0] in digits && digits[|digits| - 1] in digits;
    StripAround("", digits, " ");
    assert "" + digits + " " == digits + " ";
    ParsePlain(pid);
    SplitOfJoin(fields);
    JoinEnds(fields);
    StripAround(" ", Join(fields), "");
    assert " " + Join(fields) + "" == " " + Join(fields);
  }

  /** With fewer fields the line is rejected, for every command. */
  lemma ShortLinesAreRejected(pid: nat, command: string, fields: seq<string>, trailing: string)
    requires fields != [] && |fields| < 20 && PlainFields(fields) && AllSpace(trailing)
    ensures ParseProcStat(PrintStat(pid, command, fields) + trailing) == Err(TooFewFields)
  {
    LineIsCut(pid, command, fields, trailing);
    FieldsAreRead(pid, command, fields);
  }

  /** The numbers of a printed line that parse_proc_stat looks at. */
  ghost predicate Readable(fields: seq<string>)
    requires |fields| >= 20
  {
    ParseInt(fields[1]).Some? && ParseInt(fields[11]).Some? && ParseInt(fields[12]).Some? && ParseInt(fields[19]).Some?
  }

  /** With enough fields a line is refused exactly for a field that is no integer, or for a value out of range. */
  lemma RefusedLines(pid: nat, command: string, fields: seq<string>, trailing: string)
    requires |fields| >= 20 && PlainFields(fields) && AllSpace(trailing)
    ensures var r := ParseProcStat(PrintStat(pid, command, fields) + trailing);
            && (r == Err(InvalidNumber) <==> !Readable(fields))
            && (r == Err(OutOfRange) <==>
                  Readable(fields)
                  && (pid == 0 || ParseInt(fields[1]).value < 0 || ParseInt(fields[11]).value < 0
                      || ParseInt(fields[12]).value < 0 || ParseInt(fields[19]).value < 0))
            && (r.Err? ==> r.error == InvalidNumber || r.error == OutOfRange)
  {
    PrintedFields(pid, command, fields, trailing);
    hide ParseInt, ParseProcStat;
  }

  lemma PrintedFields(pid: nat, command: string, fields: seq<string>, trailing: string)
    requires |fields| >= 20 && PlainFields(fields) && AllSpace(trailing)
    ensures ParseProcStat(PrintStat(pid, command, fields) + trailing) == ParseFields(pid, command, fields)
  {
    LineIsCut(pid, command, fields, trailing);
    FieldsAreRead(pid, command, fields);
    hide ParseInt, Split, Strip, Cut, Join, PrintStat, ParseFields;
  }

  /** `line` has a command in parentheses after a nonempty head, the parentheses being the outermost ones. */
  ghost predicate HoldsCommand(line: string, head: string, command: string, tail: string) {
    line == head + "(" + command + ")" + tail && head != "" && '(' !in head && ')' !in tail
  }

  /** The command field is malformed exactly when the stripped text has no such form. */
  lemma MalformedIff(text: string)
    ensures ParseProcStat(text) == Err(MalformedCommand) <==>
              forall head, command, tail :: !HoldsCommand(Strip(text), head, command, tail)
  {
    var line := Strip(text);
    if Cut(line).Some? {
      CutIsSound(line);
      var (head, command, tail) := Cut(line).value;
      assert HoldsCommand(line, head, command, tail);
    } else if head, command, tail :| HoldsCommand(line, head, command, tail) {
      CutParts(head, command, tail);
    }
  }

  lemma CutIsSound(line: string)
    requires Cut(line).Some?
    ensures var (head, command, tail) := Cut(line).value;
            line == head + "(" + command + ")" + tail && '(' !in head && ')' !in tail
  {
    FindIsFirst(line, '(');
    FindLastIsLast(line, ')');
  }

  /** The numbers of an accepted line are those of its fields 1, 11, 12 and 19, none of them negative. */
  ghost predicate TakenFrom(stat: ParsedStat, fields: seq<string>) {
    && |fields| >= 20
    && ParseInt(fields[1]) == Some(stat.ppid) && stat.ppid >= 0
    && ParseInt(fields[19]) == Some(stat.startTicks) && stat.startTicks >= 0
    && exists user: nat, system: nat ::
         Some(user) == ParseInt(fields[11]) && Some(system) == ParseInt(fields[12]) && stat.cpuTicks == user + system
  }

  lemma AcceptedFields(pid: int, command: string, fields: seq<string>)
    requires ParseFields(pid, command, fields).Ok?
    ensures var stat := ParseFields(pid, command, fields).value;
            stat.pid == pid > 0 && stat.command == command && TakenFrom(stat, fields)
  {
    var user, system := ParseInt(fields[11]).value, ParseInt(fields[12]).value;
    hide ParseInt;
  }

  /**
   Every accepted text is one whose first '(' and last ')' enclose the command, with a positive pid before
   them, and whose other numbers stand in the fields after them.
   */
  lemma AcceptedTexts(text: string) returns (head: string, tail: string)
    requires ParseProcStat(text).Ok?
    ensures var stat := ParseProcStat(text).value;
            && Strip(text) == head + "(" + stat.command + ")" + tail
            && '(' !in head && ')' !in tail
            && ParseInt(Strip(head)) == Some(stat.pid) && stat.pid > 0
            && TakenFrom(stat, Split(Strip(tail)))
  {
    var parts := Cut(Strip(text)).value;
    head, tail := parts.0, parts.2;
    CutIsSound(Strip(text));
    AcceptedFields(ParseInt(Strip(head)).value, parts.1, Split(Strip(tail)));
  }
}
