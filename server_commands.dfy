// The server half of `unified_command_table` (src/commands.cpp): the
// handlers for /help, /who, /whisper, /name and /ping. They read and update
// the `client_names` map (fd -> display name) and reply through `send_safe`,
// which is abstracted here as appending a message to an outbox.
module ServerCommands {

  import opened Optional
  import opened Text
  import opened Streams
  import Transport

  /** One `client_names` entry: a connection's descriptor and its name. */
  datatype Entry = Entry(fd: int, name: string)

  /** One `send_safe(fd, text)` call made by a handler. */
  datatype Message = Message(fd: int, text: string)

  /** The text `/help` sends. */
  const HelpText: string :=
    "Available commands:\n" +
    "  /quit                 - Exit chat\n" +
    "  /help                 - Show this help message\n" +
    "  /who                  - List connected users\n" +
    "  /whisper <user> <msg> - Private message\n" +
    "  /name <new_username>  - Change your username\n" +
    "  /clear                - Clear the terminal\n" +
    "  /ping                 - Check connection with server\n"

  const WhoHeader: string := "Connected users:\n"
  const UserNotFound: string := "User not found.\n"
  const InvalidUsername: string := "Invalid username.\n"
  const Pong: string := "Server: pong\n"

  /** What a `send_safe(fd, text)` call puts on the wire: the message, unless
      it is longer than the transport accepts, in which case nothing. */
  function Deliverable(fd: int, text: string): (out: seq<Message>)
    ensures |out| <= 1
    ensures out == [] <==> |text| > Transport.MaxMessageLength
    ensures forall m :: m in out ==> m == Message(fd, text)
  {
    if |text| <= Transport.MaxMessageLength then [Message(fd, text)] else []
  }

  /** The outbox abstraction and the transport agree: a call puts nothing on
      the wire exactly when `send_safe` refuses the message as too long. */
  lemma DeliverableMatchesSendSafe(fd: int, text: string, replies: seq<Transport.SendReply>)
    ensures Deliverable(fd, text) == [] <==> Transport.Transmit(text, replies).status == Transport.TooLong
  {
    Transport.TransmitSpec(text, replies);
  }

  // ---------- The registry ----------

  /** `client_names` is a map: no descriptor appears twice. */
  ghost predicate DistinctFds(es: seq<Entry>) {
    forall i, j :: 0 <= i < j < |es| ==> es[i].fd != es[j].fd
  }

  /** The descriptors that have an entry. */
  function Fds(es: seq<Entry>): set<int> {
    set e | e in es :: e.fd
  }

  /** The position of the entry for `fd`, if there is one. */
  function IndexOfFd(es: seq<Entry>, fd: int): (r: Option<nat>)
    ensures r.Some? ==> r.value < |es| && es[r.value].fd == fd
    ensures r.Some? ==> forall j :: 0 <= j < r.value ==> es[j].fd != fd
    ensures r.None? <==> fd !in Fds(es)
  {
    if es == [] then None
    else if es[0].fd == fd then Some(0)
    else match IndexOfFd(es[1..], fd)
      case Some(i) => Some(i + 1)
      case None => None
  }

  /** `client_names[fd]` read through `operator[]`: the name, or the empty
      string that `operator[]` inserts for a missing descriptor. */
  function NameOr(es: seq<Entry>, fd: int): string {
    match IndexOfFd(es, fd)
    case Some(i) => es[i].name
    case None => ""
  }

  /** The registry after `operator[]` has been applied to `fd`: unchanged
      when `fd` has an entry, otherwise with an empty-named entry added. */
  function WithDefault(es: seq<Entry>, fd: int): (r: seq<Entry>)
    ensures fd in Fds(r) && Fds(r) == Fds(es) + {fd}
    ensures NameOr(r, fd) == NameOr(es, fd)
    ensures fd in Fds(es) ==> r == es
    ensures fd !in Fds(es) ==> r == es + [Entry(fd, "")]
    ensures forall g :: g != fd ==> Lookup(r, g) == Lookup(es, g)
  {
    if IndexOfFd(es, fd).Some? then es
    else
      var r := es + [Entry(fd, "")];
      assert r[|es|] == Entry(fd, "");
      assert IndexOfFd(r, fd).Some?;
      IndexOfFdAppend(es, Entry(fd, ""));
      r
  }

  /** Appending an entry does not move the entries already there. */
  lemma IndexOfFdAppend(es: seq<Entry>, e: Entry)
    ensures forall g :: g != e.fd ==> IndexOfFd(es + [e], g) == IndexOfFd(es, g)
    ensures e.fd !in Fds(es) ==> IndexOfFd(es + [e], e.fd) == Some(|es|)
  {
    forall g | g != e.fd ensures IndexOfFd(es + [e], g) == IndexOfFd(es, g) {
      IndexOfFdAppendOther(es, e, g);
    }
    if e.fd !in Fds(es) {
      var r := es + [e];
      assert r[|es|] == e;
    }
  }

  lemma {:induction false} IndexOfFdAppendOther(es: seq<Entry>, e: Entry, g: int)
    requires g != e.fd
    ensures IndexOfFd(es + [e], g) == IndexOfFd(es, g)
  {
    var r := es + [e];
    match IndexOfFd(es, g)
    case Some(j) =>
      assert r[j] == es[j];
    case None =>
  }

  /** Overwriting the first entry of `fd` with another entry of `fd` keeps
      it the first entry of `fd`, and keeps the set of descriptors. */
  lemma {:induction false} IndexOfFdUpdate(es: seq<Entry>, i: nat, x: Entry)
    requires IndexOfFd(es, x.fd) == Some(i)
    ensures IndexOfFd(es[i := x], x.fd) == Some(i)
    ensures Fds(es[i := x]) == Fds(es)
  {
    var r := es[i := x];
    assert r[i] == x;
    assert forall j :: 0 <= j < i ==> r[j] == es[j];
    forall e | e in es ensures e.fd in Fds(r) {
      var k :| 0 <= k < |es| && es[k] == e;
      if k != i { assert r[k] == e; } else { assert r[i] in r; }
    }
    forall e | e in r ensures e.fd in Fds(es) {
      var k :| 0 <= k < |r| && r[k] == e;
      if k != i { assert es[k] in es; } else { assert es[i] in es; }
    }
  }

  /** `client_names[fd] = n`: overwrite the entry for `fd` in place, or add
      one when there is none. */
  function Assign(es: seq<Entry>, fd: int, n: string): (r: seq<Entry>)
    ensures Lookup(r, fd) == Some(n)
    ensures Fds(r) == Fds(es) + {fd}
    ensures |r| == if fd in Fds(es) then |es| else |es| + 1
  {
    match IndexOfFd(es, fd)
    case Some(i) =>
      IndexOfFdUpdate(es, i, Entry(fd, n));
      es[i := Entry(fd, n)]
    case None =>
      IndexOfFdAppend(es, Entry(fd, n));
      assert Entry(fd, n) in es + [Entry(fd, n)];
      assert forall x :: x in es + [Entry(fd, n)] ==> x in es || x == Entry(fd, n);
      es + [Entry(fd, n)]
  }

  /** The name registered for `fd`, if any. */
  function Lookup(es: seq<Entry>, fd: int): Option<string> {
    match IndexOfFd(es, fd)
    case Some(i) => Some(es[i].name)
    case None => None
  }

  lemma LookupAt(es: seq<Entry>, i: nat)
    requires DistinctFds(es) && i < |es|
    ensures Lookup(es, es[i].fd) == Some(es[i].name)
  {
    assert es[i] in es;
    var j := IndexOfFd(es, es[i].fd).value;
    assert j == i;
  }

  /** After `client_names[fd] = n` the descriptor maps to `n`, every other
      descriptor keeps its name, no descriptor is lost or appears twice, and
      nothing stops `n` from already being another descriptor's name. */
  lemma AssignSpec(es: seq<Entry>, fd: int, n: string)
    requires DistinctFds(es)
    ensures DistinctFds(Assign(es, fd, n))
    ensures Fds(Assign(es, fd, n)) == Fds(es) + {fd}
    ensures Lookup(Assign(es, fd, n), fd) == Some(n)
    ensures forall g :: g != fd ==> Lookup(Assign(es, fd, n), g) == Lookup(es, g)
  {
    var r := Assign(es, fd, n);
    match IndexOfFd(es, fd)
    case Some(i) =>
      assert r == es[i := Entry(fd, n)];
      assert forall e :: e in r ==> e in es || e == Entry(fd, n);
      forall e | e in es ensures e in r || e == es[i] {
        var k :| 0 <= k < |es| && es[k] == e;
        if k != i { assert r[k] == e; }
      }
      assert r[i] in r;
      LookupAt(r, i);
      forall g | g != fd ensures Lookup(r, g) == Lookup(es, g) {
        match IndexOfFd(es, g)
        case Some(j) =>
          assert j != i;
          LookupAt(es, j);
          LookupAt(r, j);
        case None =>
          assert g !in Fds(r);
      }
    case None =>
      assert r == es + [Entry(fd, n)];
      assert r[|es|] in r;
      LookupAt(r, |es|);
      forall g | g != fd ensures Lookup(r, g) == Lookup(es, g) {
        match IndexOfFd(es, g)
        case Some(j) =>
          LookupAt(es, j);
          LookupAt(r, j);
        case None =>
          assert g !in Fds(r);
      }
  }

  /** /name does not look for the new name among the other entries: when
      another descriptor already holds it, both hold it afterwards. */
  lemma RenameOntoTakenName(es: seq<Entry>, fd: int, other: int, n: string)
    requires DistinctFds(es) && other != fd && Lookup(es, other) == Some(n)
    ensures Lookup(Assign(es, fd, n), fd) == Some(n)
    ensures Lookup(Assign(es, fd, n), other) == Some(n)
  {
    AssignSpec(es, fd, n);
  }

  /** Filling in the default entry first does not change what the
      assignment leaves. */
  lemma AssignAfterDefault(es: seq<Entry>, fd: int, n: string)
    ensures Assign(WithDefault(es, fd), fd, n) == Assign(es, fd, n)
  {
    if IndexOfFd(es, fd).None? {
      var d := es + [Entry(fd, "")];
      assert d[|es|] == Entry(fd, "");
      var j := IndexOfFd(d, fd).value;
      assert j == |es|;
      assert d[|es| := Entry(fd, n)] == es + [Entry(fd, n)];
    }
  }

  // ---------- /who ----------

  /** One roster line. */
  function RosterLine(name: string): string {
    "  " + name + "\n"
  }

  /** The roster lines of the entries, in iteration order. */
  function Roster(es: seq<Entry>): string {
    if es == [] then [] else Roster(es[..|es| - 1]) + RosterLine(es[|es| - 1].name)
  }

  /** The text `/who` sends. */
  function WhoReply(es: seq<Entry>): string {
    WhoHeader + Roster(es)
  }

  lemma {:induction false} RosterAppend(a: seq<Entry>, b: seq<Entry>)
    ensures Roster(a + b) == Roster(a) + Roster(b)
    decreases |b|
  {
    if b == [] {
      assert a + b == a;
    } else {
      var b' := b[..|b| - 1];
      assert (a + b)[..|a + b| - 1] == a + b';
      RosterAppend(a, b');
    }
  }

  /** The roster is one line per entry, in order: the line of entry `i` sits
      between the lines of the entries before it and those after it. */
  lemma {:induction false} RosterSplit(es: seq<Entry>, i: nat)
    requires i < |es|
    ensures Roster(es) == Roster(es[..i]) + RosterLine(es[i].name) + Roster(es[i + 1..])
  {
    var head := es[..i + 1];
    assert es == head + es[i + 1..];
    RosterAppend(head, es[i + 1..]);
    assert head[..|head| - 1] == es[..i] && head[|head| - 1] == es[i];
    assert Roster(head) == Roster(es[..i]) + RosterLine(es[i].name);
  }

  /** Occurrences of `c` in `s`. */
  function Count(c: char, s: string): nat {
    if s == [] then 0 else Count(c, s[..|s| - 1]) + (if s[|s| - 1] == c then 1 else 0)
  }

  lemma {:induction false} CountAppend(c: char, a: string, b: string)
    ensures Count(c, a + b) == Count(c, a) + Count(c, b)
    decreases |b|
  {
    if b == [] {
      assert a + b == a;
    } else {
      assert (a + b)[..|a + b| - 1] == a + b[..|b| - 1];
      CountAppend(c, a, b[..|b| - 1]);
    }
  }

  /** When no name holds a line feed, the roster has exactly one line per
      registered entry. */
  lemma {:induction false} RosterLineCount(es: seq<Entry>)
    requires forall e :: e in es ==> forall k :: 0 <= k < |e.name| ==> e.name[k] != '\n'
    ensures Count('\n', Roster(es)) == |es|
    decreases |es|
  {
    if es != [] {
      var front := es[..|es| - 1];
      var name := es[|es| - 1].name;
      assert es[|es| - 1] in es;
      assert forall e :: e in front ==> e in es;
      RosterLineCount(front);
      CountAppend('\n', Roster(front), RosterLine(name));
      CountAppend('\n', "  " + name, "\n");
      CountAppend('\n', "  ", name);
      NoLineFeedCount(name);
    }
  }

  lemma {:induction false} NoLineFeedCount(s: string)
    requires forall k :: 0 <= k < |s| ==> s[k] != '\n'
    ensures Count('\n', s) == 0
    decreases |s|
  {
    if s != [] {
      NoLineFeedCount(s[..|s| - 1]);
    }
  }

  // ---------- /whisper ----------

  /** The target name and message body of a /whisper command line. */
  datatype WhisperRequest = WhisperRequest(target: string, body: string)

  /** `iss >> cmd >> target; std::getline(iss, msg); ltrim_inplace(msg);` */
  function ParseWhisper(raw: string): (r: WhisperRequest)
    ensures forall i :: 0 <= i < |r.target| ==> !IsSpace(r.target[i])
    ensures forall i :: 0 <= i < |r.body| ==> r.body[i] != '\n'
    ensures r.body == [] || !IsBlank(r.body[0])
  {
    var cmd := ReadWord(Open(raw));
    var target := ReadWord(cmd.rest);
    var line := ReadLine(target.rest);
    WhisperRequest(target.value, LTrim(line.value))
  }

  /** `std::find_if` for the first entry, in iteration order, whose name is
      `target`. */
  function FindByName(es: seq<Entry>, target: string): (r: Option<nat>)
    ensures r.Some? ==> r.value < |es| && es[r.value].name == target
    ensures r.Some? ==> forall j :: 0 <= j < r.value ==> es[j].name != target
    ensures r.None? <==> forall j :: 0 <= j < |es| ==> es[j].name != target
  {
    if es == [] then None
    else if es[0].name == target then Some(0)
    else match FindByName(es[1..], target)
      case Some(i) => Some(i + 1)
      case None => None
  }

  /** The text delivered to the target of a whisper. */
  function WhisperText(sender: string, body: string): string {
    "(whisper from " + sender + "): " + body + "\n"
  }

  // ---------- /name ----------

  /** `iss >> cmd >> new_name;` */
  function ParseName(raw: string): (n: string)
    ensures forall i :: 0 <= i < |n| ==> !IsSpace(n[i])
  {
    ReadWord(ReadWord(Open(raw)).rest).value
  }

  /** The notice the other connections receive after a rename. */
  function NameNotice(oldName: string, newName: string): string {
    oldName + " changed name to " + newName + "\n"
  }

  /** The `send_safe(fd, text)` calls made by the loop over the entries that
      skips `sender`, in iteration order. */
  function Notices(es: seq<Entry>, sender: int, text: string): (out: seq<Message>)
    ensures |out| <= |es|
    ensures forall m :: m in out ==> m.text == text && m.fd != sender
  {
    if es == [] then []
    else
      var last := es[|es| - 1];
      Notices(es[..|es| - 1], sender, text) + (if last.fd != sender then Deliverable(last.fd, text) else [])
  }

  /** Every notice carries the text and goes to a registered descriptor other
      than the sender; every other registered descriptor gets one, and no
      descriptor gets two. An oversized notice goes to no one. */
  lemma {:induction false} NoticesSpec(es: seq<Entry>, sender: int, text: string)
    requires DistinctFds(es)
    ensures |text| > Transport.MaxMessageLength ==> Notices(es, sender, text) == []
    ensures forall m :: m in Notices(es, sender, text) ==>
              m.text == text && m.fd != sender && m.fd in Fds(es)
    ensures |text| <= Transport.MaxMessageLength ==>
              forall e :: e in es && e.fd != sender ==> Message(e.fd, text) in Notices(es, sender, text)
    ensures forall i, j :: 0 <= i < j < |Notices(es, sender, text)| ==>
              Notices(es, sender, text)[i].fd != Notices(es, sender, text)[j].fd
    decreases |es|
  {
    if es != [] {
      var front := es[..|es| - 1];
      var last := es[|es| - 1];
      assert forall e :: e in es ==> e in front || e == last;
      assert forall e :: e in front ==> e in es;
      assert last.fd !in Fds(front);
      NoticesSpec(front, sender, text);
    }
  }

  // ---------- The handlers ----------

  /** The state the server handlers share: the `client_names` map, as its
      entries in iteration order, and every message handed to `send_safe`. */
  class ChatServer {
    var names: seq<Entry>
    var outbox: seq<Message>

    ghost predicate Valid()
      reads this
    {
      DistinctFds(names)
    }

    constructor (registry: seq<Entry>)
      requires DistinctFds(registry)
      ensures Valid() && names == registry && outbox == []
    {
      names := registry;
      outbox := [];
    }

    /** `send_safe(fd, text)`. */
    method Post(fd: int, text: string)
      modifies this`outbox
      ensures outbox == old(outbox) + Deliverable(fd, text)
    {
      if |text| <= Transport.MaxMessageLength {
        outbox := outbox + [Message(fd, text)];
      }
    }

    /** `client_names[fd]`, which inserts an empty name for a missing key. */
    method Subscript(fd: int) returns (name: string)
      requires Valid()
      modifies this`names
      ensures Valid()
      ensures names == WithDefault(old(names), fd)
      ensures name == NameOr(old(names), fd)
    {
      match IndexOfFd(names, fd)
      case Some(i) =>
        name := names[i].name;
      case None =>
        assert forall i :: 0 <= i < |names| ==> names[i] in names;
        names := names + [Entry(fd, "")];
        name := "";
    }

    /** /help: the help text to the requester, nothing else. */
    method Help(clientFd: int)
      modifies this
      ensures names == old(names)
      ensures outbox == old(outbox) + [Message(clientFd, HelpText)]
    {
      Post(clientFd, HelpText);
    }

    /** /ping: a pong to the requester, nothing else. */
    method Ping(clientFd: int)
      modifies this
      ensures names == old(names)
      ensures outbox == old(outbox) + [Message(clientFd, Pong)]
    {
      Post(clientFd, Pong);
    }

    /** /who: the roster, built line by line, to the requester only. */
    method Who(clientFd: int)
      modifies this
      ensures names == old(names)
      ensures outbox == old(outbox) + Deliverable(clientFd, WhoReply(names))
    {
      var list := WhoHeader;
      var i := 0;
      while i < |names|
        invariant 0 <= i <= |names|
        invariant list == WhoHeader + Roster(names[..i])
      {
        assert names[..i + 1][..i] == names[..i];
        list := list + RosterLine(names[i].name);
        i := i + 1;
      }
      assert names[..|names|] == names;
      Post(clientFd, list);
    }

    /** /whisper: to the first entry whose name is the target, the sender's
        name and the message; when there is none, "User not found." to the
        sender. Reading the sender's name through `operator[]` registers an
        empty name for a sender that has none. */
    method Whisper(clientFd: int, raw: string)
      requires Valid()
      modifies this
      ensures Valid()
      ensures var req := ParseWhisper(raw);
              match FindByName(old(names), req.target)
              case Some(i) =>
                names == WithDefault(old(names), clientFd) &&
                outbox == old(outbox) + Deliverable(old(names)[i].fd, WhisperText(NameOr(old(names), clientFd), req.body))
              case None =>
                names == old(names) && outbox == old(outbox) + Deliverable(clientFd, UserNotFound)
    {
      var req := ParseWhisper(raw);
      match FindByName(names, req.target)
      case Some(i) =>
        var targetFd := names[i].fd;
        var sender := Subscript(clientFd);
        Post(targetFd, WhisperText(sender, req.body));
      case None =>
        Post(clientFd, UserNotFound);
    }

    /** /name: an invalid name earns the sender "Invalid username." and
        changes nothing; a valid one replaces the sender's name, with no check
        that another connection holds it, and every other connection is
        told the old and new name. */
    method Name(clientFd: int, raw: string)
      requires Valid()
      modifies this
      ensures Valid()
      ensures var newName := ParseName(raw);
              if !IsValidUsername(newName) then
                names == old(names) && outbox == old(outbox) + Deliverable(clientFd, InvalidUsername)
              else
                names == Assign(old(names), clientFd, newName) &&
                outbox == old(outbox) + Notices(names, clientFd, NameNotice(NameOr(old(names), clientFd), newName))
    {
      var newName := ParseName(raw);
      if !IsValidUsername(newName) {
        Post(clientFd, InvalidUsername);
        return;
      }
      var oldName := Subscript(clientFd);
      AssignAfterDefault(old(names), clientFd, newName);
      AssignSpec(names, clientFd, newName);
      names := Assign(names, clientFd, newName);
      NotifyOthers(clientFd, NameNotice(oldName, newName));
    }

    /** The loop of /name that hands the notice to every entry but the
        sender's, in iteration order. */
    method NotifyOthers(sender: int, notice: string)
      modifies this`outbox
      ensures outbox == old(outbox) + Notices(names, sender, notice)
    {
      var i := 0;
      while i < |names|
        invariant 0 <= i <= |names|
        invariant outbox == old(outbox) + Notices(names[..i], sender, notice)
      {
        assert names[..i + 1][..i] == names[..i];
        if names[i].fd != sender {
          Post(names[i].fd, notice);
        }
        i := i + 1;
      }
      assert names[..|names|] == names;
    }
  }

}
