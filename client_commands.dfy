// The client half of `unified_command_table` (src/commands.cpp): argument
// checks for /whisper and /name, the /ping cooldown, and the lines handed
// to `send_safe` on the way to the server. Each handler receives the input
// stream positioned after the command word.
module ClientCommands {

  import opened Optional
  import opened Text
  import opened Streams
  import opened Transport
  import ServerCommands

  /** `CommandResult`: keep reading input, report a usage error, or exit. */
  datatype CommandResult = Continue | Invalid | Quit

  /** The minimum spacing between two pings, in seconds. */
  const PingCooldownSeconds: nat := 5

  /** Resolution of the steady clock: time is counted in nanoseconds. */
  const TicksPerSecond: nat := 1_000_000_000

  /** Integer division that truncates toward zero, as C++ does and as
      `duration_cast` does when it converts to whole seconds. */
  function TruncDiv(a: int, b: int): (q: int)
    requires b > 0
    ensures a >= 0 ==> q * b <= a < q * b + b
    ensures a < 0 ==> q * b - b < a <= q * b
  {
    if a >= 0 then a / b else -((-a) / b)
  }

  /** Whole seconds between `last` and `now`, truncated. */
  function ElapsedSeconds(last: int, now: int): int {
    TruncDiv(now - last, TicksPerSecond)
  }

  /** Fewer than PingCooldownSeconds whole seconds, truncated, exactly when
      fewer than that many seconds' worth of ticks: truncating loses nothing
      that matters to the comparison. */
  lemma CooldownInTicks(d: int)
    ensures TruncDiv(d, TicksPerSecond) < PingCooldownSeconds <==> d < PingCooldownSeconds * TicksPerSecond
  {
    var q := TruncDiv(d, TicksPerSecond);
    if d >= 0 {
      if q >= PingCooldownSeconds {
        assert q * TicksPerSecond >= PingCooldownSeconds * TicksPerSecond;
      } else {
        assert (q + 1) * TicksPerSecond <= PingCooldownSeconds * TicksPerSecond;
      }
    }
  }

  /** The cooldown test of the client /ping: at least PingCooldownSeconds
      whole seconds have elapsed, which is the case exactly when the clock
      has advanced by at least the cooldown, counted in ticks. */
  predicate PingAllowed(last: int, now: int): (r: bool)
    ensures r <==> now - last >= PingCooldownSeconds * TicksPerSecond
  {
    CooldownInTicks(now - last);
    !(ElapsedSeconds(last, now) < PingCooldownSeconds)
  }

  /** The process-wide `last_ping_time` of the client. */
  class ChatClient {
    var lastPingTime: int

    /** At start-up the last ping is dated one full cooldown before `start`,
        so that the first ping is allowed. */
    constructor (start: int)
      ensures lastPingTime == start - PingCooldownSeconds * TicksPerSecond
      ensures PingAllowed(lastPingTime, start)
    {
      lastPingTime := start - PingCooldownSeconds * TicksPerSecond;
    }

    /** /ping at time `now`: refused, with the clock untouched, inside the
        cooldown; otherwise the clock is set to `now` before "/ping\n" is
        handed to `send_safe`, whose outcome decides the result. */
    method Ping(now: int, replies: seq<SendReply>) returns (res: CommandResult, handed: Option<string>)
      modifies this
      ensures !PingAllowed(old(lastPingTime), now) ==>
                res == Invalid && handed == None && lastPingTime == old(lastPingTime)
      ensures PingAllowed(old(lastPingTime), now) ==>
                lastPingTime == now && handed == Some("/ping\n") &&
                (res == Continue <==> Transmit("/ping\n", replies).status == Delivered)
      ensures res != Quit
    {
      var elapsed := ElapsedSeconds(lastPingTime, now);
      if elapsed < PingCooldownSeconds {
        return Invalid, None;
      }
      lastPingTime := now;
      var status, _, _ := SendSafe("/ping\n", replies);
      res := if status == Delivered then Continue else Invalid;
      handed := Some("/ping\n");
    }
  }

  /** /quit, /help and /clear act only on the local console. */
  datatype LocalCommand = QuitCommand | HelpCommand | ClearCommand

  /** The result of the local-only commands: /quit ends the session, /help
      and /clear keep it going. Nothing is sent. */
  function RunLocal(cmd: LocalCommand): (res: CommandResult)
    ensures res == Quit <==> cmd == QuitCommand
    ensures res != Invalid
  {
    match cmd
    case QuitCommand => Quit
    case HelpCommand => Continue
    case ClearCommand => Continue
  }

  /** /who: hand "/who\n" to `send_safe`; a failed send is reported. */
  method Who(replies: seq<SendReply>) returns (res: CommandResult, handed: Option<string>)
    ensures handed == Some("/who\n")
    ensures res == Continue <==> Transmit("/who\n", replies).status == Delivered
    ensures res != Quit
  {
    var status, _, _ := SendSafe("/who\n", replies);
    res := if status == Delivered then Continue else Invalid;
    handed := Some("/who\n");
  }

  /** The arguments of a client /whisper: the next word, and the rest of
      the line with leading blanks trimmed. */
  datatype WhisperArgs = WhisperArgs(user: string, body: string)

  function ReadWhisperArgs(st: Stream): (a: WhisperArgs)
    requires st.Wf()
    ensures forall i :: 0 <= i < |a.user| ==> !IsSpace(a.user[i])
    ensures forall i :: 0 <= i < |a.body| ==> a.body[i] != '\n'
    ensures a.body == [] || !IsBlank(a.body[0])
  {
    var user := ReadWord(st);
    var line := ReadLine(user.rest).value;
    TrimmedLineHasNoLineFeed(line);
    WhisperArgs(user.value, LTrim(line))
  }

  /** Trimming a line leaves it a line: no line feed appears. */
  lemma TrimmedLineHasNoLineFeed(line: string)
    requires forall i :: 0 <= i < |line| ==> line[i] != '\n'
    ensures forall i :: 0 <= i < |LTrim(line)| ==> LTrim(line)[i] != '\n'
  {
    var body := LTrim(line);
    forall i | 0 <= i < |body| ensures body[i] != '\n' {
      assert body[i] == line[|line| - |body| + i];
    }
  }

  /** The line a client /whisper sends. */
  function WhisperLine(user: string, body: string): string {
    "/whisper " + user + " " + body + "\n"
  }

  /** /whisper: a missing user or an empty message is a usage error and
      sends nothing; otherwise the whisper line goes to `send_safe`. Whatever
      is sent, the server's parsing recovers the user and the message. */
  method Whisper(st: Stream, replies: seq<SendReply>) returns (res: CommandResult, handed: Option<string>)
    requires st.Wf()
    ensures var a := ReadWhisperArgs(st);
            if a.user == [] || a.body == [] then res == Invalid && handed == None
            else handed == Some(WhisperLine(a.user, a.body)) &&
                 (res == Continue <==> Transmit(WhisperLine(a.user, a.body), replies).status == Delivered)
    ensures res != Quit
    ensures handed.Some? ==>
              ServerCommands.ParseWhisper(handed.value)
                == ServerCommands.WhisperRequest(ReadWhisperArgs(st).user, ReadWhisperArgs(st).body)
  {
    var a := ReadWhisperArgs(st);
    if a.user == [] || a.body == [] {
      return Invalid, None;
    }
    var full := WhisperLine(a.user, a.body);
    WhisperRoundTrip(a.user, a.body);
    var status, _, _ := SendSafe(full, replies);
    res := if status == Delivered then Continue else Invalid;
    handed := Some(full);
  }

  /** The server reads back the user and message of a whisper line, as long
      as the user is one non-empty word and the message holds no line feed
      and does not start with a blank: exactly what the client sends. */
  lemma WhisperRoundTrip(user: string, body: string)
    requires user != [] && forall i :: 0 <= i < |user| ==> !IsSpace(user[i])
    requires forall i :: 0 <= i < |body| ==> body[i] != '\n'
    requires body == [] || !IsBlank(body[0])
    ensures ServerCommands.ParseWhisper(WhisperLine(user, body)) == ServerCommands.WhisperRequest(user, body)
  {
    ParseWhisperLine(user, body, "\n");
    LTrimKeepsTrimmed(body);
  }

  /** The server's parse of any "/whisper <user> <message>" line, whether or
      not it ends with a line feed: the target is the user word and the body
      is the rest of the line with its leading blanks trimmed. */
  lemma ParseWhisperLine(user: string, body: string, tail: string)
    requires user != [] && forall i :: 0 <= i < |user| ==> !IsSpace(user[i])
    requires forall i :: 0 <= i < |body| ==> body[i] != '\n'
    requires tail == [] || tail == "\n"
    ensures ServerCommands.ParseWhisper("/whisper " + user + " " + body + tail)
              == ServerCommands.WhisperRequest(user, LTrim(body))
  {
    var raw := "/whisper " + user + " " + body + tail;
    WhisperCommandWord(raw, user, body, tail);
    WhisperTargetWord(raw, user, body, tail);
    WhisperBodyLine(raw, user, body, tail);
    LTrimSkipsBlanks(" ", body);
    ParseWhisperSteps(raw, user, " " + body);
  }

  /** ParseWhisper, read off the three extractions it makes. */
  lemma ParseWhisperSteps(raw: string, user: string, line: string)
    requires |raw| >= 9 + |user|
    requires ReadWord(Open(raw)).rest == Stream(raw, 8, true)
    requires ReadWord(Stream(raw, 8, true)) == Extracted(Stream(raw, 9 + |user|, true), user)
    requires ReadLine(Stream(raw, 9 + |user|, true)).value == line
    ensures ServerCommands.ParseWhisper(raw) == ServerCommands.WhisperRequest(user, LTrim(line))
  {
  }

  lemma WhisperCommandWord(raw: string, user: string, body: string, tail: string)
    requires raw == "/whisper " + user + " " + body + tail
    ensures ReadWord(Open(raw)).rest == Stream(raw, 8, true)
  {
    assert raw[0..8] == "/whisper" && raw[8] == ' ';
    ReadWordAt(Open(raw), 0, "/whisper");
  }

  lemma WhisperTargetWord(raw: string, user: string, body: string, tail: string)
    requires user != [] && forall i :: 0 <= i < |user| ==> !IsSpace(user[i])
    requires raw == "/whisper " + user + " " + body + tail
    ensures ReadWord(Stream(raw, 8, true)) == Extracted(Stream(raw, 9 + |user|, true), user)
  {
    assert raw[8] == ' ' && raw[9..9 + |user|] == user && raw[9 + |user|] == ' ';
    ReadWordAt(Stream(raw, 8, true), 1, user);
  }

  lemma WhisperBodyLine(raw: string, user: string, body: string, tail: string)
    requires forall i :: 0 <= i < |body| ==> body[i] != '\n'
    requires tail == [] || tail == "\n"
    requires raw == "/whisper " + user + " " + body + tail
    ensures ReadLine(Stream(raw, 9 + |user|, true)).value == " " + body
  {
    var line := " " + body;
    assert raw == "/whisper " + user + line + tail;
    if tail == [] {
      assert raw[9 + |user|..] == line;
      ReadLineToEnd(Stream(raw, 9 + |user|, true), line);
    } else {
      assert raw[9 + |user|..9 + |user| + |line|] == line;
      assert raw[9 + |user| + |line|] == '\n';
      ReadLineAt(Stream(raw, 9 + |user|, true), line);
    }
  }

  /** The line the client /name hands to `send_safe`, as written: no line
      feed is appended. */
  function NameLine(name: string): string {
    "/name " + name
  }

  /** /name as written: an invalid name is a usage error and sends nothing;
      otherwise "/name <name>" goes to `send_safe`, but the outcome of the
      send is added to a string literal, so the result is always Continue. */
  method Name(st: Stream, replies: seq<SendReply>) returns (res: CommandResult, handed: Option<string>)
    requires st.Wf()
    ensures var n := ReadWord(st).value;
            if !IsValidUsername(n) then res == Invalid && handed == None
            else res == Continue && handed == Some(NameLine(n))
    ensures res != Quit
  {
    var n := ReadWord(st).value;
    if !IsValidUsername(n) {
      return Invalid, None;
    }
    var _, _, _ := SendSafe(NameLine(n), replies);
    res := Continue;
    handed := Some(NameLine(n));
  }

  /** The client /name reports success even when nothing reached the
      server: here the first call of `send` fails. */
  lemma NameIgnoresFailedSend()
    ensures IsValidUsername("bob")
    ensures Transmit(NameLine("bob"), [Failed]).status == SendFailed
  {
    assert NameLine("bob") != [];
  }

  /** The /name handler as evidently intended: the line ends with a line
      feed and the outcome of the send decides the result. */
  method NameIntended(st: Stream, replies: seq<SendReply>) returns (res: CommandResult, handed: Option<string>)
    requires st.Wf()
    ensures var n := ReadWord(st).value;
            if !IsValidUsername(n) then res == Invalid && handed == None
            else handed == Some(NameLine(n) + "\n") &&
                 (res == Continue <==> Transmit(NameLine(n) + "\n", replies).status == Delivered)
    ensures res != Quit
    ensures res == Continue ==> handed.Some? && Concat(Transmit(handed.value, replies).chunks) == handed.value
    ensures handed.Some? ==> ServerCommands.ParseName(handed.value) == ReadWord(st).value
  {
    var n := ReadWord(st).value;
    if !IsValidUsername(n) {
      return Invalid, None;
    }
    var full := NameLine(n) + "\n";
    NameRoundTrip(n);
    var status, _, _ := SendSafe(full, replies);
    res := if status == Delivered then Continue else Invalid;
    handed := Some(full);
  }

  /** The server reads back a valid name from the /name line, whether or
      not the line ends with a line feed. */
  lemma NameRoundTrip(name: string)
    requires IsValidUsername(name)
    ensures ServerCommands.ParseName(NameLine(name)) == name
    ensures ServerCommands.ParseName(NameLine(name) + "\n") == name
  {
    NameIsOneWord(name);
    assert NameLine(name) + "" == NameLine(name);
    NameWord(name, "");
    NameWord(name, "\n");
  }

  /** A valid name is one word: non-empty, with no whitespace. */
  lemma NameIsOneWord(name: string)
    requires IsValidUsername(name)
    ensures name != [] && forall i :: 0 <= i < |name| ==> !IsSpace(name[i])
  {
    forall i | 0 <= i < |name| ensures !IsSpace(name[i]) {
      assert IsNameChar(name[i]);
    }
  }

  /** The second word of "/name <name>" followed by `tail` (nothing, or a
      line feed) is the name. */
  lemma NameWord(name: string, tail: string)
    requires name != [] && forall i :: 0 <= i < |name| ==> !IsSpace(name[i])
    requires tail == [] || tail == "\n"
    ensures ServerCommands.ParseName(NameLine(name) + tail) == name
  {
    var raw := NameLine(name) + tail;
    assert raw == "/name " + name + tail;
    assert raw[0..5] == "/name" && raw[5] == ' ';
    ReadWordAt(Open(raw), 0, "/name");
    var st := Stream(raw, 5, true);
    if tail == [] {
      assert raw[6..] == name;
      ReadWordToEnd(st, 1, name);
    } else {
      assert raw[6..6 + |name|] == name && raw[6 + |name|] == '\n';
      ReadWordAt(st, 1, name);
    }
  }

}
