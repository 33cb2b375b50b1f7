// The two `std::istringstream` extractions the command handlers use to
// split a command line: `is >> word` and `std::getline(is, line)`.
module Streams {

  /** `std::isspace` in the C locale: the separators `>>` skips. */
  predicate IsSpace(c: char) {
    c == ' ' || c == '\t' || c == '\n' || c == '\r' || c == '\U{000B}' || c == '\U{000C}'
  }

  /** An input string stream: the text, the read position, and whether the
      stream is still good (neither eofbit nor failbit set). Once a stream is
      not good, every further extraction fails without consuming input. */
  datatype Stream = Stream(text: string, pos: nat, good: bool) {
    predicate Wf() {
      pos <= |text|
    }
  }

  /** The outcome of one extraction: the stream afterwards and the string
      extracted (the target strings in the handlers start out empty). */
  datatype Extracted = Extracted(rest: Stream, value: string)

  /** `std::istringstream iss(s)`: positioned at the start, good. */
  function Open(s: string): (st: Stream)
    ensures st.Wf() && st.good && st.text == s && st.pos == 0
  {
    Stream(s, 0, true)
  }

  /** The first position at or after `p` that is not whitespace. */
  function SkipSpace(t: string, p: nat): (q: nat)
    requires p <= |t|
    ensures p <= q <= |t|
    ensures forall i :: p <= i < q ==> IsSpace(t[i])
    ensures q < |t| ==> !IsSpace(t[q])
    decreases |t| - p
  {
    if p < |t| && IsSpace(t[p]) then SkipSpace(t, p + 1) else p
  }

  /** The first position at or after `p` that is whitespace. */
  function WordEnd(t: string, p: nat): (q: nat)
    requires p <= |t|
    ensures p <= q <= |t|
    ensures forall i :: p <= i < q ==> !IsSpace(t[i])
    ensures q < |t| ==> IsSpace(t[q])
    decreases |t| - p
  {
    if p < |t| && !IsSpace(t[p]) then WordEnd(t, p + 1) else p
  }

  /** The first position at or after `p` that holds a line feed. */
  function LineEnd(t: string, p: nat): (q: nat)
    requires p <= |t|
    ensures p <= q <= |t|
    ensures forall i :: p <= i < q ==> t[i] != '\n'
    ensures q < |t| ==> t[q] == '\n'
    decreases |t| - p
  {
    if p < |t| && t[p] != '\n' then LineEnd(t, p + 1) else p
  }

  /** `is >> word`: skip whitespace, then take characters up to the next
      whitespace. Running into the end of the text sets eofbit; finding no
      word at all sets failbit too. A stream that is not good yields nothing. */
  function ReadWord(st: Stream): (r: Extracted)
    requires st.Wf()
    ensures r.rest.Wf() && r.rest.text == st.text && st.pos <= r.rest.pos
    ensures forall i :: 0 <= i < |r.value| ==> !IsSpace(r.value[i])
    ensures !st.good ==> r.value == [] && !r.rest.good
    ensures r.rest.good ==> r.value != [] && r.rest.pos < |st.text| && IsSpace(st.text[r.rest.pos])
  {
    if !st.good then Extracted(st, [])
    else
      var p := SkipSpace(st.text, st.pos);
      if p == |st.text| then Extracted(Stream(st.text, p, false), [])
      else
        var q := WordEnd(st.text, p);
        Extracted(Stream(st.text, q, q < |st.text|), st.text[p..q])
  }

  /** `std::getline(is, line)`: take characters up to the next line feed,
      which is consumed but not stored. Running into the end of the text sets
      eofbit; extracting nothing at all sets failbit too. */
  function ReadLine(st: Stream): (r: Extracted)
    requires st.Wf()
    ensures r.rest.Wf() && r.rest.text == st.text && st.pos <= r.rest.pos
    ensures forall i :: 0 <= i < |r.value| ==> r.value[i] != '\n'
    ensures !st.good ==> r.value == [] && !r.rest.good
  {
    if !st.good || st.pos == |st.text| then Extracted(Stream(st.text, st.pos, false), [])
    else
      var q := LineEnd(st.text, st.pos);
      if q < |st.text| then Extracted(Stream(st.text, q + 1, true), st.text[st.pos..q])
      else Extracted(Stream(st.text, q, false), st.text[st.pos..])
  }

  /** What `>>` extracts from a good stream: nothing, with the stream
      failed, when only whitespace is left; otherwise exactly the text from
      the first non-whitespace character up to the next whitespace or the end
      of the text, where the stream now stands. */
  lemma ReadWordValue(st: Stream)
    requires st.Wf() && st.good
    ensures var r := ReadWord(st);
            var p := SkipSpace(st.text, st.pos);
            (p == |st.text| ==> r.value == [] && !r.rest.good) &&
            (p < |st.text| ==>
               r.value != [] && p <= r.rest.pos && st.text[p..r.rest.pos] == r.value &&
               (r.rest.pos == |st.text| || IsSpace(st.text[r.rest.pos])))
  {
  }

  /** What `getline` extracts from a good stream: nothing, with the stream
      failed, at the end of the text; otherwise exactly the text from the
      current position up to the next line feed or the end of the text. */
  lemma ReadLineValue(st: Stream)
    requires st.Wf() && st.good
    ensures var r := ReadLine(st);
            (st.pos == |st.text| ==> r.value == [] && !r.rest.good) &&
            (st.pos < |st.text| ==>
               st.pos + |r.value| <= |st.text| && st.text[st.pos..st.pos + |r.value|] == r.value &&
               (st.pos + |r.value| == |st.text| || st.text[st.pos + |r.value|] == '\n'))
  {
  }

  /** Reading a word from a stream that sits on `pre + w + post`, where the
      leading part `pre` is whitespace, `w` a non-empty word and `post` starts
      with whitespace, yields exactly `w` and leaves the stream good, just
      before `post`. */
  lemma ReadWordAt(st: Stream, n: nat, w: string)
    requires st.Wf() && st.good
    requires st.pos + n + |w| < |st.text|
    requires forall i :: st.pos <= i < st.pos + n ==> IsSpace(st.text[i])
    requires w != [] && st.text[st.pos + n..st.pos + n + |w|] == w
    requires forall i :: 0 <= i < |w| ==> !IsSpace(w[i])
    requires IsSpace(st.text[st.pos + n + |w|])
    ensures ReadWord(st) == Extracted(Stream(st.text, st.pos + n + |w|, true), w)
  {
    var p := st.pos + n;
    assert st.text[p] == w[0];
    assert SkipSpace(st.text, st.pos) == p;
    forall i | p <= i < p + |w| ensures !IsSpace(st.text[i]) {
      assert st.text[i] == w[i - p];
    }
    assert WordEnd(st.text, p) == p + |w|;
  }

  /** Reading a line from a stream that sits on `l + "\n" + post`, where `l`
      holds no line feed, yields exactly `l` and leaves the stream good. */
  lemma ReadLineAt(st: Stream, l: string)
    requires st.Wf() && st.good
    requires st.pos + |l| < |st.text|
    requires st.text[st.pos..st.pos + |l|] == l
    requires forall i :: 0 <= i < |l| ==> l[i] != '\n'
    requires st.text[st.pos + |l|] == '\n'
    ensures ReadLine(st) == Extracted(Stream(st.text, st.pos + |l| + 1, true), l)
  {
    forall i | st.pos <= i < st.pos + |l| ensures st.text[i] != '\n' {
      assert st.text[i] == l[i - st.pos];
    }
    assert LineEnd(st.text, st.pos) == st.pos + |l|;
  }

  /** Reading a word from a stream that sits on whitespace followed by a
      non-empty word running to the end of the text yields exactly that word
      and leaves the stream at its end, with eofbit set. */
  lemma ReadWordToEnd(st: Stream, n: nat, w: string)
    requires st.Wf() && st.good
    requires st.pos + n + |w| == |st.text|
    requires forall i :: st.pos <= i < st.pos + n ==> IsSpace(st.text[i])
    requires w != [] && st.text[st.pos + n..] == w
    requires forall i :: 0 <= i < |w| ==> !IsSpace(w[i])
    ensures ReadWord(st) == Extracted(Stream(st.text, |st.text|, false), w)
  {
    var p := st.pos + n;
    assert st.text[p] == w[0];
    assert SkipSpace(st.text, st.pos) == p;
    forall i | p <= i < |st.text| ensures !IsSpace(st.text[i]) {
      assert st.text[i] == w[i - p];
    }
    assert WordEnd(st.text, p) == |st.text|;
  }

  /** Reading a line from a stream that sits on a non-empty rest `l` with
      no line feed yields exactly `l` and sets eofbit. */
  lemma ReadLineToEnd(st: Stream, l: string)
    requires st.Wf() && st.good
    requires l != [] && st.text[st.pos..] == l
    requires forall i :: 0 <= i < |l| ==> l[i] != '\n'
    ensures ReadLine(st) == Extracted(Stream(st.text, |st.text|, false), l)
  {
    forall i | st.pos <= i < |st.text| ensures st.text[i] != '\n' {
      assert st.text[i] == l[i - st.pos];
    }
    assert LineEnd(st.text, st.pos) == |st.text|;
  }

}
