/** Whole runs of the command state machine: which results are announced, and when (ATCommandsInterface). */
module ATTransactions {
  import opened ATSpec
  import opened Wrappers

  /** The mailbox of the processing thread: empty, with a command to send, or with another message (timeout,
      stop). */
  datatype Mail = NoMail | CommandReady(command: string) | OtherMail

  /** trySendCommand. */
  function Received(t: Transaction, mail: Mail): Transaction {
    match mail
    case NoMail => t
    case CommandReady(command) => t.(state := COMMAND_SENT, command := command)
    case OtherMail => t.(state := IDLE)
  }

  /** What the processing thread can meet. */
  datatype Step = Asked(mail: Mail) | LineRead(text: string)

  /** trySendCommand and processReadLine. */
  function Take(t: Transaction, s: Step): Transaction {
    match s
    case Asked(mail) => Received(t, mail)
    case LineRead(text) => ProcessLine(t, text)
  }

  /** In a result, each final line announces what it means and ends the transaction; every other line is handed to
      the command's processor and announces nothing. */
  lemma ReadingMeans(t: Transaction, line: string)
    requires t.state == READING_RESULT
    ensures var t' := ProcessLine(t, line);
      && (line == "OK" ==> t'.posted == t.posted + [AT_OK])
      && (line == "ERROR" || line == "COMMAND NOT SUPPORT" ==> t'.posted == t.posted + [AT_ERROR])
      && ("CONNECT" <= line ==> t'.posted == t.posted + [AT_CONNECT])
      && ("+CME ERROR:" <= line ==> t'.posted == t.posted + [AT_CME_ERROR])
      && ("+CMS ERROR:" <= line ==> t'.posted == t.posted + [AT_CMS_ERROR])
      && (Ordinary(line) ==> t' == t && Consults(t, line))
      && (!Ordinary(line) ==> t'.state == IDLE && !Consults(t, line))
  {
    OrdinaryIff(line);
    ResultCodeIff(line, AT_OK);
    ResultCodeIff(line, AT_ERROR);
    ResultCodeIff(line, AT_CONNECT);
    ResultCodeIff(line, AT_CME_ERROR);
    ResultCodeIff(line, AT_CMS_ERROR);
    hide ResultCode, Ordinary;
  }

  predicate IsCommand(s: Step) {
    s.Asked? && s.mail.CommandReady?
  }

  /** A step that neither sends nor resets: a line, or an empty mailbox. */
  predicate Leaves(s: Step) {
    s.LineRead? || s.mail.NoMail?
  }

  function Run(t: Transaction, ss: seq<Step>): Transaction {
    if ss == [] then t else Take(Run(t, ss[..|ss| - 1]), ss[|ss| - 1])
  }

  function Commands(ss: seq<Step>): nat {
    if ss == [] then 0 else Commands(ss[..|ss| - 1]) + if IsCommand(ss[|ss| - 1]) then 1 else 0
  }

  /** At most one result per command, and none is owed while the machine is IDLE. */
  lemma {:induction false} ResultsBounded(t: Transaction, ss: seq<Step>)
    requires t.state == IDLE && t.posted == []
    ensures |Run(t, ss).posted| + (if Run(t, ss).state == IDLE then 0 else 1) <= Commands(ss)
  {
    if ss != [] { ResultsBounded(t, ss[..|ss| - 1]); }
  }

  /** Command j is the last thing sent, nothing has been reset or announced since. */
  predicate Pending(t: Transaction, ss: seq<Step>, j: nat) {
    && j < |ss| && IsCommand(ss[j])
    && (forall x :: j < x < |ss| ==> Leaves(ss[x]))
    && Run(t, ss).command == ss[j].mail.command
    && Run(t, ss[..j + 1]).posted == Run(t, ss).posted
  }

  lemma {:induction false} AwaitingEcho(t: Transaction, ss: seq<Step>) returns (j: nat)
    requires t.state == IDLE && Run(t, ss).state == COMMAND_SENT
    ensures Pending(t, ss, j)
  {
    var init := ss[..|ss| - 1];
    if IsCommand(ss[|ss| - 1]) {
      j := |ss| - 1;
      assert ss[..j + 1] == ss;
    } else {
      j := AwaitingEcho(t, init);
      assert init[..j + 1] == ss[..j + 1];
    }
  }

  /** Results are read only behind the echo of the pending command. */
  lemma {:induction false} ReadingFollowsEcho(t: Transaction, ss: seq<Step>) returns (j: nat, k: nat)
    requires t.state == IDLE && Run(t, ss).state == READING_RESULT
    ensures Pending(t, ss, j) && j < k < |ss| && ss[k] == LineRead(ss[j].mail.command)
  {
    var init := ss[..|ss| - 1];
    if Run(t, init).state == READING_RESULT {
      j, k := ReadingFollowsEcho(t, init);
    } else {
      j := AwaitingEcho(t, init);
      k := |ss| - 1;
    }
    assert init[..j + 1] == ss[..j + 1];
  }

  /** Step i announces a result. */
  predicate Announces(t: Transaction, ss: seq<Step>, i: nat)
    requires i < |ss|
  {
    Run(t, ss[..i + 1]).posted != Run(t, ss[..i]).posted
  }

  lemma RunSnoc(t: Transaction, ss: seq<Step>, i: nat)
    requires i < |ss|
    ensures Run(t, ss[..i + 1]) == Take(Run(t, ss[..i]), ss[i])
  {
    assert ss[..i + 1][..i] == ss[..i];
  }

  /** The only step that announces a result. */
  lemma AnnouncingStep(t: Transaction, s: Step)
    requires Take(t, s).posted != t.posted
    ensures t.state == READING_RESULT && s.LineRead? && s.text != "" && ResultCode(s.text).Some?
    ensures Take(t, s) == t.(state := IDLE, posted := t.posted + [ResultCode(s.text).value])
  {
  }

  /** Every result answers a command of its own: since that command was sent, its echo has come back, nothing
      else was sent, reset or announced; and the result leaves the machine IDLE. */
  lemma ResultAnswersItsCommand(t: Transaction, ss: seq<Step>, i: nat) returns (j: nat, k: nat, code: Code)
    requires t.state == IDLE && i < |ss| && Announces(t, ss, i)
    ensures j < k < i && IsCommand(ss[j]) && ss[k] == LineRead(ss[j].mail.command)
    ensures forall x :: j < x <= i ==> Leaves(ss[x]) && (x < i ==> !Announces(t, ss, x))
    ensures ss[i].LineRead? && Means(ss[i].text, code)
    ensures Run(t, ss[..i + 1]).posted == Run(t, ss[..i]).posted + [code]
    ensures Run(t, ss[..i + 1]).state == IDLE
  {
    hide Run, Take, ResultCode;
    var before := ss[..i];
    RunSnoc(t, ss, i);
    AnnouncingStep(Run(t, before), ss[i]);
    code := ResultCode(ss[i].text).value;
    ResultCodeIff(ss[i].text, code);
    j, k := ReadingFollowsEcho(t, before);
    assert before[..j + 1] == ss[..j + 1];
    forall x | j < x < i ensures !Announces(t, ss, x) {
      PostedGrows(t, ss, j + 1, x);
      PostedGrows(t, ss, x, x + 1);
      PostedGrows(t, ss, x + 1, i);
    }
  }

  lemma {:induction false} PostedGrows(t: Transaction, ss: seq<Step>, a: nat, b: nat)
    requires a <= b <= |ss|
    ensures Run(t, ss[..a]).posted <= Run(t, ss[..b]).posted
    decreases b - a
  {
    if a < b {
      PostedGrows(t, ss, a, b - 1);
      assert ss[..b][..b - 1] == ss[..b - 1];
    }
  }
}
