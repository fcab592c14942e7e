/** voice_api.c: the voice configuration is sent in numbered chunks, leaving out chunks that are all 'A'. */
module Voice {

  const CHUNK: nat := 200
  const RLE_BUFFER_SIZE: nat := 30000
  const MAX_CHUNKS: nat := 10000

  datatype Tag = START | CONT | EOB_VCONFIG

  /** The values of a message: chunk text, sequence number and kind. */
  datatype Message = Message(text: string, num: nat, tag: Tag)

  // ---- sending ----

  predicate AllA(s: string) {
    forall i :: 0 <= i < |s| ==> s[i] == 'A'
  }

  /** What is sent for the rest s of a configuration from chunk number num on. */
  function Sent(s: string, num: nat): seq<Message>
    decreases |s|
  {
    if |s| <= CHUNK then [Message(s, num, EOB_VCONFIG)]
    else
      (if num != 0 && AllA(s[..CHUNK]) then [] else [Message(s[..CHUNK], num, if num == 0 then START else CONT)]) +
      Sent(s[CHUNK..], num + 1)
  }

  /** What a full chunk leads to. */
  method Flush(chunk: string, num: nat, last: bool) returns (out: seq<Message>)
    requires |chunk| == CHUNK
    ensures out ==
      if last then [Message(chunk, num, EOB_VCONFIG)]
      else if num != 0 && AllA(chunk) then []
      else [Message(chunk, num, if num == 0 then START else CONT)]
  {
    hide AllA;
    var matches := CountA(chunk);
    var skip := matches == CHUNK && num != 0;
    if last {
      out := [Message(chunk, num, EOB_VCONFIG)];
    } else if skip {
      out := [];
    } else {
      out := [Message(chunk, num, if num == 0 then START else CONT)];
    }
  }

  /** The chunking loop of nspapi_v2n_config_save: characters are collected, and every full chunk is sent or skipped.
      The sequence number is printed into five bytes, which the number 10000 overflows. */
  method ConfigSave(buffer: string) returns (sent: seq<Message>, broken: bool)
    ensures broken <==> |buffer| > CHUNK * MAX_CHUNKS
    ensures !broken ==> sent == Sent(buffer, 0)
  {
    hide Sent, AllA;
    sent, broken := [], false;
    var chunk := "";
    var num, even := 0, false;
    assert [] + Sent(buffer, 0) == Sent(buffer, 0);
    assert buffer[0..] == buffer;
    for i := 0 to |buffer|
      invariant 0 <= |chunk| <= i && |chunk| < CHUNK && chunk == buffer[i - |chunk|..i]
      invariant i == CHUNK * num + |chunk| && num <= MAX_CHUNKS
      invariant even <==> i == |buffer| && i > 0 && chunk == ""
      invariant !even ==> sent + Sent(buffer[i - |chunk|..], num) == Sent(buffer, 0)
      invariant even ==> sent == Sent(buffer, 0)
    {
      OneMore(buffer, i - |chunk|, i);
      chunk := chunk + [buffer[i]];
      if |chunk| == CHUNK {
        if num == MAX_CHUNKS {
          return sent, true;
        }
        ghost var rest := buffer[i + 1 - CHUNK..];
        assert rest[..CHUNK] == chunk && rest[CHUNK..] == buffer[i + 1..];
        SentStep(rest, num);
        var last := i == |buffer| - 1;
        assert last ==> rest == chunk;
        var out := Flush(chunk, num, last);
        sent := sent + out;
        even := last;
        num := num + 1;
        chunk := "";
        NoneYet(buffer, i + 1);
      }
    }
    if !even {
      if num == MAX_CHUNKS {
        return sent, true;
      }
      Suffix(buffer, |buffer| - |chunk|);
      SentStep(chunk, num);
      sent := sent + [Message(chunk, num, EOB_VCONFIG)];
    }
  }

  lemma Suffix(s: string, a: nat)
    requires a <= |s|
    ensures s[a..] == s[a..|s|]
  {
  }

  lemma OneMore(s: string, a: nat, i: nat)
    requires a <= i < |s|
    ensures s[a..i] + [s[i]] == s[a..i + 1]
  {
  }

  lemma NoneYet(s: string, i: nat)
    requires i <= |s|
    ensures s[i..i] == ""
  {
  }

  method CountA(chunk: string) returns (n: nat)
    ensures n <= |chunk| && (n == |chunk| <==> AllA(chunk))
  {
    n := 0;
    for j := 0 to |chunk|
      invariant n <= j && (n == j <==> AllA(chunk[..j]))
    {
      assert chunk[..j + 1] == chunk[..j] + [chunk[j]];
      if chunk[j] == 'A' {
        n := n + 1;
      }
    }
    assert chunk[..|chunk|] == chunk;
  }

  lemma SentStep(s: string, num: nat)
    ensures |s| <= CHUNK ==> Sent(s, num) == [Message(s, num, EOB_VCONFIG)]
    ensures |s| > CHUNK ==>
      Sent(s, num) ==
        (if num != 0 && AllA(s[..CHUNK]) then [] else [Message(s[..CHUNK], num, if num == 0 then START else CONT)]) +
        Sent(s[CHUNK..], num + 1)
  {
    hide AllA;
  }

  // ---- receiving ----

  function As(n: nat): (r: string)
    ensures |r| == n && AllA(r)
  {
    seq(n, _ => 'A')
  }

  /** The reassembly buffer up to its size, the last sequence number and whether the write pointer has been set; Broken
      stands for writes outside the buffer or through the unset pointer. */
  datatype Assembly = Assembly(text: string, last: nat, ready: bool) | Broken

  /** The end marker sets the write pointer for the messages to come. */
  function Ended(v: Assembly, m: Message): Assembly
    requires v.Assembly?
  {
    if m.tag == EOB_VCONFIG then v.(ready := true) else v
  }

  /** A sequence number that is not above the last one: the chunk is stored and then given up again in part or with
      what was there before; a size below zero puts the next chunk before the buffer. */
  function Back(v: Assembly, m: Message, gap: int): Assembly
    requires v.Assembly? && gap < 0
  {
    var size := |v.text| + |m.text| + gap;
    if size < 0 then Broken else Ended(Assembly((v.text + m.text)[..size], m.num, true), m)
  }

  /** One message of run_nsp_api's n2v_configure; messages that do not fit are dropped before the end marker is seen. */
  function Accept(v: Assembly, m: Message): Assembly {
    if v == Broken then Broken
    else
      var v0 := if m.tag == START then Assembly("", 0, true) else v;
      if m.text == "" then Ended(v0, m)
      else if |v0.text| + |m.text| > RLE_BUFFER_SIZE then v0
      else if !v0.ready then Broken
      else if v0.last + 1 != m.num && m.num != 0 then
        var gap := (m.num - v0.last - 1) * CHUNK;
        if gap > RLE_BUFFER_SIZE then v0
        else if gap < 0 then Back(v0, m, gap)
        else if |v0.text| + gap + |m.text| > RLE_BUFFER_SIZE then Broken
        else Ended(Assembly(v0.text + As(gap) + m.text, m.num, true), m)
      else Ended(Assembly(v0.text + m.text, m.num, true), m)
  }

  function AcceptAll(v: Assembly, ms: seq<Message>): Assembly
    decreases |ms|
  {
    if ms == [] then v else AcceptAll(Accept(v, ms[0]), ms[1..])
  }

  class Receiver {
    const buff: array<char>
    var size: nat
    var last: nat
    var ready: bool
    var broken: bool

    ghost predicate Valid()
      reads this
    {
      buff.Length == RLE_BUFFER_SIZE && size <= RLE_BUFFER_SIZE
    }

    ghost function State(): Assembly
      requires Valid()
      reads this, buff
    {
      if broken then Broken else Assembly(buff[..size], last, ready)
    }

    constructor ()
      ensures Valid() && fresh(buff) && State() == Assembly("", 0, false)
    {
      buff := new char[RLE_BUFFER_SIZE];
      size, last, ready, broken := 0, 0, false, false;
    }

    method Put(at: nat, text: string)
      requires Valid() && at + |text| <= RLE_BUFFER_SIZE
      modifies buff
      ensures buff[..at] == old(buff[..at]) && buff[at..at + |text|] == text
    {
      for j := 0 to |text|
        invariant buff[..at] == old(buff[..at]) && buff[at..at + j] == text[..j]
      {
        buff[at + j] := text[j];
        assert text[..j + 1] == text[..j] + [text[j]];
        assert buff[at..at + j + 1] == buff[at..at + j] + [text[j]];
      }
    }

    /** Fills the gap with 'A' and appends the chunk. */
    method Append(gap: nat, text: string)
      requires Valid() && size + gap + |text| <= RLE_BUFFER_SIZE
      modifies this`size, buff
      ensures Valid() && buff[..size] == old(buff[..size]) + As(gap) + text
    {
      hide As, AllA;
      ghost var before := buff[..size];
      Put(size, As(gap));
      assert buff[..size + gap] == before + As(gap);
      Put(size + gap, text);
      assert buff[..size + gap + |text|] == before + As(gap) + text;
      size := size + gap + |text|;
    }

    method TakeBack(m: Message, gap: int)
      requires Valid() && !broken && ready && size + |m.text| <= RLE_BUFFER_SIZE && gap < 0
      modifies this, buff
      ensures Valid() && State() == Back(old(State()), m, gap)
    {
      ghost var before := buff[..size];
      Put(size, m.text);
      assert buff[..size + |m.text|] == before + m.text;
      if size + |m.text| + gap < 0 {
        broken := true;
      } else {
        size, last := size + |m.text| + gap, m.num;
        assert buff[..size] == (before + m.text)[..size];
      }
    }

    /** The reassembly of one message, up to the point where EOB_VCONFIG hands the buffer on. */
    method Receive(m: Message)
      requires Valid()
      modifies this, buff
      ensures Valid() && State() == Accept(old(State()), m)
    {
      hide As, AllA;
      if broken {
        return;
      }
      if m.tag == START {
        size, last, ready := 0, 0, true;
        assert buff[..size] == "";
      }
      if |m.text| > 0 {
        if size + |m.text| > RLE_BUFFER_SIZE {
          return;
        }
        if !ready {
          broken := true;
          return;
        }
        var gap := 0;
        if last + 1 != m.num && m.num != 0 {
          gap := (m.num - last - 1) * CHUNK;
          if gap > RLE_BUFFER_SIZE {
            return;
          }
          if gap < 0 {
            TakeBack(m, gap);
            return;
          }
          if size + gap + |m.text| > RLE_BUFFER_SIZE {
            broken := true;
            return;
          }
        }
        assert buff[..size] + As(0) == buff[..size];
        Append(gap, m.text);
        last := m.num;
      }
      if m.tag == EOB_VCONFIG {
        ready := true;
      }
    }
  }

  // ---- there and back ----

  lemma AllAIs(s: string)
    requires AllA(s)
    ensures s == As(|s|)
  {
  }

  lemma {:induction false} AllACat(a: string, b: string)
    requires AllA(a) && AllA(b)
    ensures AllA(a + b)
  {
  }

  /** The chunk that arrives as number num after chunk last, when those between were skipped. */
  lemma {:induction false} AcceptChunk(s: string, last: nat, num: nat, len: nat, tag: Tag)
    requires |s| <= RLE_BUFFER_SIZE && 0 <= last < num && tag != START
    requires 0 < len && CHUNK * num + len <= |s| && AllA(s[CHUNK * (last + 1)..CHUNK * num])
    ensures
      var m := Message(s[CHUNK * num..CHUNK * num + len], num, tag);
      Accept(Assembly(s[..CHUNK * (last + 1)], last, true), m) ==
      Assembly(s[..CHUNK * num + len], num, true)
  {
    var a, b, c := CHUNK * (last + 1), CHUNK * num, CHUNK * num + len;
    AllAIs(s[a..b]);
    assert s[..a] + s[a..b] + s[b..c] == s[..c];
    assert (num - last - 1) * CHUNK == b - a;
    if last + 1 == num {
      assert s[..a] + s[b..c] == s[..c];
    }
  }

  lemma {:induction false} RestArrives(s: string, last: nat, num: nat)
    requires |s| <= RLE_BUFFER_SIZE && 0 <= last < num && CHUNK * num < |s|
    requires AllA(s[CHUNK * (last + 1)..CHUNK * num])
    ensures AcceptAll(Assembly(s[..CHUNK * (last + 1)], last, true), Sent(s[CHUNK * num..], num)).Assembly?
    ensures AcceptAll(Assembly(s[..CHUNK * (last + 1)], last, true), Sent(s[CHUNK * num..], num)).text == s
    decreases |s| - CHUNK * num
  {
    hide Accept, AllA, As;
    var b := CHUNK * num;
    var rest := s[b..];
    var v := Assembly(s[..CHUNK * (last + 1)], last, true);
    SentStep(rest, num);
    hide Sent;
    if |rest| <= CHUNK {
      AcceptChunk(s, last, num, |rest|, EOB_VCONFIG);
      assert s[b..b + |rest|] == rest && s[..b + |rest|] == s;
      AcceptOne(v, Message(rest, num, EOB_VCONFIG));
    } else {
      var chunk := rest[..CHUNK];
      assert chunk == s[b..b + CHUNK] && rest[CHUNK..] == s[CHUNK * (num + 1)..];
      if AllA(chunk) {
        AllACat(s[CHUNK * (last + 1)..b], chunk);
        assert s[CHUNK * (last + 1)..b] + chunk == s[CHUNK * (last + 1)..CHUNK * (num + 1)];
        RestArrives(s, last, num + 1);
        assert [] + Sent(rest[CHUNK..], num + 1) == Sent(rest[CHUNK..], num + 1);
      } else {
        AcceptChunk(s, last, num, CHUNK, CONT);
        AcceptFirst(v, Message(chunk, num, CONT), Sent(rest[CHUNK..], num + 1));
        NoAs(s, CHUNK * (num + 1));
        RestArrives(s, num, num + 1);
      }
    }
  }

  lemma NoAs(s: string, i: nat)
    requires i <= |s|
    ensures AllA(s[i..i])
  {
  }

  lemma AcceptOne(v: Assembly, m: Message)
    ensures AcceptAll(v, [m]) == Accept(v, m)
  {
    hide Accept;
    assert AcceptAll(v, [m]) == AcceptAll(Accept(v, m), []);
  }

  lemma AcceptFirst(v: Assembly, m: Message, ms: seq<Message>)
    ensures AcceptAll(v, [m] + ms) == AcceptAll(Accept(v, m), ms)
  {
    hide Accept;
    assert ([m] + ms)[1..] == ms;
  }

  /** A configuration of 201 to 30000 characters starts with START and so arrives whatever the receiver held before. */
  lemma {:induction false} LongArrives(s: string, v: Assembly)
    requires CHUNK < |s| <= RLE_BUFFER_SIZE && v.Assembly?
    ensures AcceptAll(v, Sent(s, 0)).Assembly? && AcceptAll(v, Sent(s, 0)).text == s
  {
    SentStep(s, 0);
    hide Sent, AcceptAll, AllA;
    var first := Message(s[..CHUNK], 0, START);
    assert "" + s[..CHUNK] == s[..CHUNK];
    assert Accept(v, first) == Assembly(s[..CHUNK], 0, true);
    hide Accept;
    AcceptFirst(v, first, Sent(s[CHUNK..], 1));
    NoAs(s, CHUNK);
    RestArrives(s, 0, 1);
  }

  /** A short configuration is one end message, added to what is there. */
  lemma {:induction false} ShortArrives(s: string, v: Assembly)
    requires |s| <= CHUNK && v.Assembly?
    ensures
      var end := AcceptAll(v, Sent(s, 0));
      end.Assembly? && end.text == s <==> v.text == "" && (v.ready || s == "")
  {
    SentStep(s, 0);
    hide Sent, AcceptAll, AllA, As;
    AcceptOne(v, Message(s, 0, EOB_VCONFIG));
    assert |v.text + s| == |v.text| + |s|;
    assert v.text == "" ==> v.text + s == s;
  }

  /** What does not fit is never held. */
  lemma {:induction false} NeverMore(v: Assembly, ms: seq<Message>)
    requires v.Assembly? ==> |v.text| <= RLE_BUFFER_SIZE
    ensures var end := AcceptAll(v, ms); end.Assembly? ==> |end.text| <= RLE_BUFFER_SIZE
    decreases |ms|
  {
    hide As, AllA;
    if ms != [] {
      NeverMore(Accept(v, ms[0]), ms[1..]);
    }
  }

  /** A receiver in this state ends up with the configuration. */
  predicate Arrives(s: string, v: Assembly)
    requires v.Assembly?
  {
    |s| <= RLE_BUFFER_SIZE && (|s| > CHUNK || (v.text == "" && (v.ready || s == "")))
  }

  /** Every configuration, every state of the receiver: short configurations are not announced by START, so they arrive
      only in an empty buffer whose write pointer has been set. */
  lemma {:induction false} ConfigurationArrives(s: string, v: Assembly)
    requires v.Assembly? && |v.text| <= RLE_BUFFER_SIZE
    ensures
      var end := AcceptAll(v, Sent(s, 0));
      end.Assembly? && end.text == s <==> Arrives(s, v)
  {
    hide Sent, AcceptAll;
    if |s| > RLE_BUFFER_SIZE {
      NeverMore(v, Sent(s, 0));
    } else if |s| > CHUNK {
      LongArrives(s, v);
    } else {
      ShortArrives(s, v);
    }
  }

  /** Two short configurations in a row run together, and the first one after the program starts is written through an
      unset pointer. */
  lemma {:induction false} ShortFails()
    ensures AcceptAll(Assembly("B", 0, true), Sent("C", 0)) == Assembly("BC", 0, true)
    ensures AcceptAll(Assembly("", 0, false), Sent("C", 0)) == Broken
  {
    SentStep("C", 0);
    hide Sent, AcceptAll, As;
    var m := Message("C", 0, EOB_VCONFIG);
    AcceptOne(Assembly("B", 0, true), m);
    AcceptOne(Assembly("", 0, false), m);
  }

  /** Saving a configuration and receiving its messages in order, with any receiver. */
  method SaveAndReceive(rx: Receiver, s: string) returns (broken: bool)
    requires rx.Valid() && rx.State().Assembly?
    modifies rx, rx.buff
    ensures rx.Valid() && (broken <==> |s| > CHUNK * MAX_CHUNKS)
    ensures rx.State().Assembly? && rx.State().text == s <==> old(Arrives(s, rx.State()))
  {
    hide Sent, AcceptAll, Accept;
    var messages;
    messages, broken := ConfigSave(s);
    if broken {
      return;
    }
    ghost var end := AcceptAll(rx.State(), messages);
    ConfigurationArrives(s, rx.State());
    assert messages[0..] == messages;
    for i := 0 to |messages|
      invariant rx.Valid() && AcceptAll(rx.State(), messages[i..]) == end
    {
      assert messages[i..] == [messages[i]] + messages[i + 1..];
      AcceptFirst(rx.State(), messages[i], messages[i + 1..]);
      rx.Receive(messages[i]);
    }
    AcceptNone(rx.State());
  }

  lemma AcceptNone(v: Assembly)
    ensures AcceptAll(v, []) == v
  {
  }

  // ---- which chunks are sent ----

  /** Chunk j of s. */
  function Chunk(s: string, j: nat): string
    requires 200 * j <= |s|
  {
    s[200 * j..if 200 * (j + 1) <= |s| then 200 * (j + 1) else |s|]
  }

  lemma {:induction false} SentNumbers(s: string, num: nat)
    ensures forall m :: m in Sent(s, num) ==> num <= m.num && (m.num == num || 200 * (m.num - num) < |s|)
    decreases |s|
  {
    hide AllA;
    if |s| > CHUNK {
      SentNumbers(s[CHUNK..], num + 1);
    }
  }

  /** The messages for s from number num on: chunk j goes out under the number num + j exactly when it is the first of
      all, the last, or not all 'A'. */
  lemma {:induction false} SentExactly(s: string, num: nat, j: nat)
    requires 200 * j < |s| || j == 0
    ensures
      var last := 200 * (j + 1) >= |s|;
      var tag := if last then EOB_VCONFIG else if num + j == 0 then START else CONT;
      Message(Chunk(s, j), num + j, tag) in Sent(s, num) <==>
        num + j == 0 || last || exists i :: 0 <= i < 200 && Chunk(s, j)[i] != 'A'
    decreases |s|
  {
    SentStep(s, num);
    hide Sent;
    if |s| <= CHUNK {
      assert Chunk(s, 0) == s;
    } else {
      var rest := s[CHUNK..];
      SentNumbers(rest, num + 1);
      if j == 0 {
        assert Chunk(s, 0) == s[..CHUNK];
      } else {
        assert Chunk(s, j) == Chunk(rest, j - 1);
        SentExactly(rest, num + 1, j - 1);
      }
    }
  }
}
