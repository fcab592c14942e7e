/** kex.c, session.c, auth.c, service.c and the dispatch of packet.c: the server's session state over any run. */
module SshSession {
  import opened Wrappers

  const SERVICE_REQUEST := 5
  const SERVICE_ACCEPT := 6
  const UNIMPLEMENTED := 3
  const KEXINIT := 20
  const NEWKEYS := 21
  const KEXDH_INIT := 30
  const KEXDH_REPLY := 31
  const USERAUTH_REQUEST := 50
  const USERAUTH_FAILURE := 51
  const USERAUTH_SUCCESS := 52
  const USERAUTH_BANNER := 53
  const USERAUTH_PK_OK := 60
  const CHANNEL_OPEN := 90
  const CHANNEL_DATA := 94
  const MAX_AUTH_TRIES := 3

  /** A packet handed to encrypt_packet: its type and the key context that encrypted it, the cookie of a KEXINIT, and
      what went into the hash that a KEXDH_REPLY is signed over. */
  datatype Sent = Sent(msg: nat, key: nat, cookie: nat, hash: seq<Item>)

  /** A packet handed to a handler: its type, the key context in use and whether the user was authenticated. */
  datatype Dispatch = Dispatch(msg: nat, key: nat, authed: bool)

  /** What goes into the exchange hash, section 8 of RFC 4253. */
  datatype Item = ClientVersion | ServerVersion | ClientKexInit(cookie: nat) | ServerKexInit(cookie: nat)
                | HostKey | ClientValue(e: nat) | ServerValue(f: nat) | SharedSecret(k: nat)

  /** pubkeyauth and passwordauth, by the outcomes of their checks. */
  datatype Method = NoMethod | Password(right: bool)
                  | Pubkey(allowed: bool, probe: bool, wellFormed: bool, verified: bool)
                  | OtherMethod

  datatype Message =
    | Ignored
    | Unimplemented
    | Disconnect
    | ServiceRequest(userauth: bool, connection: bool)
    | UserAuthRequest(user: nat, tooLong: bool, lengthOk: bool, nameOk: bool, accountOk: bool, how: Method)
    | KexInit(cookie: nat, agreed: bool, reply: nat)
    | KexDhInit(e: nat, f: nat, k: nat)
    | NewKeys
    | ChannelMessage(kind: ChannelKind, replies: nat)
    | Unknown

  /** SSH_MSG_CHANNEL_OPEN to SSH_MSG_CHANNEL_REQUEST, without extended data. */
  type ChannelKind = k: nat | CHANNEL_OPEN <= k <= 98 && k != 95 witness CHANNEL_DATA

  datatype Event = Receive(m: Message) | Timeouts(authExpired: bool, rekeyDue: bool, cookie: nat)
                 | ChannelOutput(n: nat)

  function TypeOf(m: Message): nat {
    match m
    case Ignored => 2
    case Unimplemented => UNIMPLEMENTED
    case Disconnect => 1
    case ServiceRequest(_, _) => SERVICE_REQUEST
    case UserAuthRequest(_, _, _, _, _, _) => USERAUTH_REQUEST
    case KexInit(_, _, _) => KEXINIT
    case KexDhInit(_, _, _) => KEXDH_INIT
    case NewKeys => NEWKEYS
    case ChannelMessage(kind, _) => kind
    case Unknown => 255
  }

  function NewKeysIn(log: seq<Sent>): nat {
    if log == [] then 0
    else NewKeysIn(log[..|log| - 1]) + if log[|log| - 1].msg == NEWKEYS then 1 else 0
  }

  /** Section 7.3 of RFC 4253: each packet is encrypted under the keys of the exchange that the last NEWKEYS sent before
      it concluded. */
  predicate InOrder(log: seq<Sent>) {
    forall i :: 0 <= i < |log| ==> log[i].key == NewKeysIn(log[..i])
  }

  /** Nothing but key exchange before the first switch of keys, and channels only for authenticated users. */
  predicate Guarded(log: seq<Dispatch>) {
    forall i :: 0 <= i < |log| ==>
      && (log[i].msg !in {KEXINIT, KEXDH_INIT, NEWKEYS} ==> log[i].key > 0)
      && (CHANNEL_OPEN <= log[i].msg < 255 ==> log[i].authed)
  }

  lemma LogMore(log: seq<Sent>, s: Sent)
    requires InOrder(log) && s.key == NewKeysIn(log)
    ensures InOrder(log + [s]) && NewKeysIn(log + [s]) == NewKeysIn(log) + if s.msg == NEWKEYS then 1 else 0
  {
    var all := log + [s];
    assert all[..|all| - 1] == log;
    forall i | 0 <= i < |all| ensures all[i].key == NewKeysIn(all[..i]) {
      if i < |log| {
        assert all[..i] == log[..i];
      }
    }
  }

  /** The first half of an exchange hash: version strings and the KEXINIT messages with the given cookies. */
  function Opening(theirs: nat, mine: nat): seq<Item> {
    [ClientVersion, ServerVersion, ClientKexInit(theirs), ServerKexInit(mine)]
  }

  /** The items of a complete exchange hash whose server KEXINIT carried the given cookie. */
  predicate Complete(h: seq<Item>, mine: nat) {
    |h| == 8 && h[0] == ClientVersion && h[1] == ServerVersion && h[2].ClientKexInit? && h[3] == ServerKexInit(mine) &&
    h[4] == HostKey && h[5].ClientValue? && h[6].ServerValue? && h[7].SharedSecret?
  }

  /** The cookie of the last KEXINIT sent. */
  function LastCookie(log: seq<Sent>): Option<nat> {
    if log == [] then None
    else if log[|log| - 1].msg == KEXINIT then Some(log[|log| - 1].cookie)
    else LastCookie(log[..|log| - 1])
  }

  /** The hash of the first KEXDH_REPLY sent. */
  function FirstHash(log: seq<Sent>): Option<seq<Item>> {
    if log == [] then None
    else if log[0].msg == KEXDH_REPLY then Some(log[0].hash)
    else FirstHash(log[1..])
  }

  /** Section 8 of RFC 4253: every signed hash is complete and covers the KEXINIT sent last before it. */
  predicate Signed(log: seq<Sent>) {
    forall i :: 0 <= i < |log| && log[i].msg == KEXDH_REPLY ==>
      LastCookie(log[..i]).Some? && Complete(log[i].hash, LastCookie(log[..i]).value)
  }

  lemma LastCookieMore(log: seq<Sent>, s: Sent)
    ensures LastCookie(log + [s]) == if s.msg == KEXINIT then Some(s.cookie) else LastCookie(log)
  {
    assert (log + [s])[..|log|] == log;
  }

  lemma {:induction false} FirstHashMore(log: seq<Sent>, s: Sent)
    ensures FirstHash(log + [s]) ==
            if FirstHash(log).None? && s.msg == KEXDH_REPLY then Some(s.hash) else FirstHash(log)
    decreases |log|
  {
    if log == [] {
      assert FirstHash([s][1..]) == None;
    } else {
      assert (log + [s])[1..] == log[1..] + [s];
      FirstHashMore(log[1..], s);
    }
  }

  lemma SignedMore(log: seq<Sent>, s: Sent)
    requires Signed(log)
    requires s.msg == KEXDH_REPLY ==> LastCookie(log).Some? && Complete(s.hash, LastCookie(log).value)
    ensures Signed(log + [s])
  {
    hide LastCookie, Complete;
    var all := log + [s];
    forall i | 0 <= i < |all| && all[i].msg == KEXDH_REPLY
      ensures LastCookie(all[..i]).Some? && Complete(all[i].hash, LastCookie(all[..i]).value)
    {
      assert all[..i] == if i < |log| then log[..i] else log;
    }
  }

  class Session {
    var exited: bool
    // struct KEXState
    var sentKexInit: bool
    var recvKexInit: bool
    var sentNewKeys: bool
    var recvNewKeys: bool
    // key contexts, numbered in the order in which they are made
    var keys: nat
    var newKeys: Option<nat>
    var transKexInit: Option<nat>
    var kexHashBuf: Option<seq<Item>>
    var dhK: Option<nat>
    var sessionId: Option<seq<Item>>
    var expecting: nat
    var dataAllowed: bool
    // struct AuthState
    var authDone: bool
    var failCount: nat
    var username: Option<nat>
    var banner: bool
    // history
    var sent: seq<Sent>
    var dispatched: seq<Dispatch>

    /** What holds of the key exchange whatever message type is being waited for. */
    ghost predicate Kex()
      reads `sentKexInit, `recvKexInit, `sentNewKeys, `recvNewKeys, `keys, `newKeys, `transKexInit, `kexHashBuf, `dhK
      reads `sessionId, `dataAllowed, `authDone, `failCount, `username, `sent
    {
      && (recvKexInit ==> sentKexInit)
      && (transKexInit.Some? <==> sentKexInit && !recvKexInit)
      && (newKeys.Some? <==> recvKexInit) && (newKeys.Some? ==> newKeys.value == keys + 1)
      && (dhK.Some? <==> sentNewKeys)
      && (kexHashBuf.Some? <==> recvKexInit && !sentNewKeys)
      && (sentNewKeys ==> recvKexInit && !recvNewKeys && sessionId.Some?)
      && (sentKexInit && !recvNewKeys ==> !dataAllowed)
      && (keys > 0 ==> sessionId.Some?)
      && (keys == 0 ==> sentKexInit && !recvNewKeys && !authDone)
      && (authDone ==> username.Some?)
      && failCount < MAX_AUTH_TRIES
      && keys + (if sentNewKeys then 1 else 0) == NewKeysIn(sent)
      && Hashing()
    }

    /** Which message has to come next. */
    ghost predicate Waiting()
      reads this
    {
      && expecting in {0, KEXINIT, KEXDH_INIT, NEWKEYS}
      && (recvKexInit ==> expecting == if sentNewKeys then NEWKEYS else KEXDH_INIT)
      && (keys == 0 && !recvKexInit ==> expecting == KEXINIT)
    }

    /** The logs, and the session identifier: the hash of the first exchange, which covers the first KEXINIT. */
    ghost predicate Logs()
      reads `sent, `dispatched, `sessionId
    {
      && InOrder(sent) && Guarded(dispatched) && Signed(sent)
      && sent != [] && sessionId == FirstHash(sent) && (sessionId.Some? ==> Complete(sessionId.value, sent[0].cookie))
    }

    /** The remembered KEXINIT and the hash under way are those of the KEXINIT sent last. */
    ghost predicate Hashing()
      reads `sent, `sessionId, `transKexInit, `kexHashBuf
    {
      && sent != [] && LastCookie(sent).Some? && (sessionId.None? ==> LastCookie(sent).value == sent[0].cookie)
      && (transKexInit.Some? ==> transKexInit == LastCookie(sent))
      && (kexHashBuf.Some? ==> exists theirs :: kexHashBuf.value == Opening(theirs, LastCookie(sent).value))
    }

    ghost predicate Valid()
      reads this
    {
      Logs() && (!exited ==> Kex() && Waiting())
    }

    /** What no message can take back. */
    twostate predicate Sticky()
      reads this
    {
      && (old(sessionId).Some? ==> sessionId == old(sessionId))
      && (old(authDone) ==> authDone)
      && old(keys) <= keys && old(sent) <= sent && old(dispatched) <= dispatched
    }

    /** session_init and the first KEXINIT of child_session. */
    constructor (banner: bool, cookie: nat)
      ensures Valid() && !exited && keys == 0 && sessionId.None? && !authDone && failCount == 0
      ensures sent == [Sent(KEXINIT, 0, cookie, [])] && dispatched == []
    {
      exited := false;
      sentKexInit, recvKexInit, sentNewKeys, recvNewKeys := true, false, false, false;
      keys, newKeys, transKexInit, kexHashBuf, dhK, sessionId := 0, None, Some(cookie), None, None, None;
      expecting, dataAllowed := KEXINIT, false;
      authDone, failCount, username := false, 0, None;
      this.banner := banner;
      sent, dispatched := [Sent(KEXINIT, 0, cookie, [])], [];
      new;
      assert sent == [] + [Sent(KEXINIT, 0, cookie, [])];
      var first := Sent(KEXINIT, 0, cookie, []);
      LogMore([], first);
      LastCookieMore([], first);
      FirstHashMore([], first);
      SignedMore([], first);
    }

    /** encrypt_packet; never called between sending NEWKEYS and taking the new keys into use. */
    method Send(msg: nat, cookie: nat, hash: seq<Item>)
      requires InOrder(sent) && Signed(sent) && sent != [] && keys == NewKeysIn(sent)
      requires msg == KEXDH_REPLY ==> LastCookie(sent).Some? && Complete(hash, LastCookie(sent).value)
      modifies this`sent
      ensures InOrder(sent) && Signed(sent) && sent == old(sent) + [Sent(msg, keys, cookie, hash)]
      ensures NewKeysIn(sent) == keys + if msg == NEWKEYS then 1 else 0
      ensures LastCookie(sent) == if msg == KEXINIT then Some(cookie) else old(LastCookie(sent))
      ensures FirstHash(sent) ==
        if msg == KEXDH_REPLY && old(FirstHash(sent)).None? then Some(hash) else old(FirstHash(sent))
    {
      hide InOrder, NewKeysIn, Signed, LastCookie, FirstHash, Complete;
      var packet := Sent(msg, keys, cookie, hash);
      LogMore(sent, packet);
      LastCookieMore(sent, packet);
      FirstHashMore(sent, packet);
      SignedMore(sent, packet);
      sent := sent + [packet];
    }

    method SendKexInit(cookie: nat)
      requires Logs() && Kex() && !sentKexInit
      modifies this`sent, this`transKexInit, this`dataAllowed, this`sentKexInit
      ensures Logs() && Kex() && sentKexInit && transKexInit == Some(cookie) && LastCookie(sent) == Some(cookie)
      ensures sent == old(sent) + [Sent(KEXINIT, keys, cookie, [])]
    {
      hide NewKeysIn, InOrder, Guarded, Signed, LastCookie, FirstHash, Complete;
      Send(KEXINIT, cookie, []);
      transKexInit := Some(cookie);
      dataAllowed := false;
      sentKexInit := true;
    }

    /** gen_new_keys and kexinitialise */
    method SwitchKeys()
      requires newKeys.Some? && dhK.Some? && sessionId.Some?
      modifies this`keys, this`newKeys, this`dhK, this`sentKexInit, this`recvKexInit, this`sentNewKeys, this`recvNewKeys
      ensures keys == old(newKeys).value && newKeys.None? && dhK.None?
      ensures !sentKexInit && !recvKexInit && !sentNewKeys && !recvNewKeys
    {
      keys := newKeys.value;
      newKeys, dhK := None, None;
      sentKexInit, recvKexInit, sentNewKeys, recvNewKeys := false, false, false, false;
    }

    /** The first half of the exchange hash is put together. */
    method StartHash(cookie: nat)
      requires Logs() && Kex() && !exited && !recvKexInit && sentKexInit
      modifies this`newKeys, this`kexHashBuf, this`transKexInit, this`recvKexInit, this`expecting
      ensures Kex() && Waiting() && recvKexInit && expecting == KEXDH_INIT
      ensures LastCookie(sent).Some? && kexHashBuf == Some(Opening(cookie, LastCookie(sent).value))
    {
      hide NewKeysIn, InOrder, Guarded, Signed, LastCookie, FirstHash, Complete;
      newKeys := Some(keys + 1);
      kexHashBuf, transKexInit := Some(Opening(cookie, transKexInit.value)), None;
      recvKexInit, expecting := true, KEXDH_INIT;
    }

    /** recv_msg_kexinit; a client without a common algorithm ends the session. */
    method RecvKexInit(cookie: nat, agreed: bool, reply: nat)
      requires Logs() && Kex() && !exited && !recvKexInit
      modifies this`exited, this`sent, this`transKexInit, this`dataAllowed, this`sentKexInit
      modifies this`newKeys, this`kexHashBuf, this`recvKexInit, this`expecting
      ensures Valid() && Sticky() && dispatched == old(dispatched) && exited == !agreed
      ensures !exited ==> recvKexInit && expecting == KEXDH_INIT && keys == old(keys)
      ensures !exited ==>
        LastCookie(sent).Some? && kexHashBuf == Some(Opening(cookie, LastCookie(sent).value))
      ensures LastCookie(sent) == if old(sentKexInit) then old(LastCookie(sent)) else Some(reply)
    {
      hide NewKeysIn, InOrder, Guarded, Signed, LastCookie, FirstHash, Complete, Session.Kex, Session.Waiting;
      if !sentKexInit {
        SendKexInit(reply);
      }
      if !agreed {
        exited := true;
        return;
      }
      StartHash(cookie);
    }

    /** send_msg_kexdh_reply: completes the exchange hash; the first one names the session. */
    method SendKexDhReply(e: nat, f: nat, k: nat)
      requires Logs() && Kex() && kexHashBuf.Some? && newKeys.Some?
      modifies this`dhK, this`kexHashBuf, this`sessionId, this`sent
      ensures Logs() && LastCookie(sent) == old(LastCookie(sent)) && dhK == Some(k) && kexHashBuf.None?
      ensures var hash := old(kexHashBuf).value + [HostKey, ClientValue(e), ServerValue(f), SharedSecret(k)];
        && sessionId == (if old(sessionId).Some? then old(sessionId) else Some(hash))
        && sent == old(sent) + [Sent(KEXDH_REPLY, keys, 0, hash)] && NewKeysIn(sent) == keys
        && Complete(hash, old(LastCookie(sent)).value)
    {
      hide NewKeysIn, InOrder, Guarded, Signed, LastCookie, FirstHash;
      dhK := Some(k);
      var hash := kexHashBuf.value + [HostKey, ClientValue(e), ServerValue(f), SharedSecret(k)];
      kexHashBuf := None;
      if sessionId.None? {
        sessionId := Some(hash);
      }
      Send(KEXDH_REPLY, 0, hash);
    }

    /** send_msg_newkeys: if the client's NEWKEYS is already in, the new keys apply at once. */
    method SendNewKeys()
      requires Logs() && !sentNewKeys && keys == NewKeysIn(sent)
      requires recvKexInit && sentKexInit && newKeys == Some(keys + 1) && dhK.Some? && sessionId.Some?
      modifies this`sent, this`keys, this`newKeys, this`dhK
      modifies this`sentKexInit, this`recvKexInit, this`sentNewKeys, this`recvNewKeys
      ensures Logs() && sent == old(sent) + [Sent(NEWKEYS, old(keys), 0, [])] && NewKeysIn(sent) == old(keys) + 1
      ensures LastCookie(sent) == old(LastCookie(sent))
      ensures if old(recvNewKeys)
        then
          && keys == old(keys) + 1 && newKeys.None? && dhK.None?
          && !sentKexInit && !recvKexInit && !sentNewKeys && !recvNewKeys
        else sentNewKeys && unchanged(`keys, `newKeys, `dhK, `sentKexInit, `recvKexInit, `recvNewKeys)
    {
      hide NewKeysIn, InOrder, Guarded, Signed, LastCookie, FirstHash, Complete;
      Send(NEWKEYS, 0, []);
      if recvNewKeys {
        SwitchKeys();
      } else {
        sentNewKeys := true;
      }
    }

    /** The second half of recv_msg_kexdh_init: NEWKEYS goes out and is expected back. */
    method FinishExchange()
      requires Logs() && !exited && !sentNewKeys && keys == NewKeysIn(sent) && LastCookie(sent).Some?
      requires recvKexInit && sentKexInit && newKeys == Some(keys + 1) && dhK.Some? && sessionId.Some?
      requires transKexInit.None? && kexHashBuf.None? && failCount < MAX_AUTH_TRIES && (authDone ==> username.Some?)
      requires (!recvNewKeys ==> !dataAllowed) && (keys == 0 ==> !recvNewKeys && !authDone)
      modifies this`sent, this`keys, this`newKeys, this`dhK, this`sentKexInit, this`recvKexInit, this`sentNewKeys,
               this`recvNewKeys, this`expecting
      ensures Logs() && Kex() && Waiting() && expecting == NEWKEYS && old(keys) <= keys
      ensures sent == old(sent) + [Sent(NEWKEYS, old(keys), 0, [])]
    {
      hide NewKeysIn, InOrder, Guarded, Signed, LastCookie, FirstHash, Complete;
      SendNewKeys();
      expecting := NEWKEYS;
    }

    /** recv_msg_kexdh_init */
    method RecvKexDhInit(e: nat, f: nat, k: nat)
      requires Logs() && Kex() && !exited && !sentNewKeys
      modifies this`exited, this`sent, this`sessionId, this`kexHashBuf, this`keys, this`newKeys, this`dhK
      modifies this`sentKexInit, this`recvKexInit, this`sentNewKeys, this`recvNewKeys, this`expecting
      ensures Valid() && Sticky() && dispatched == old(dispatched)
      ensures exited <==> !old(recvKexInit)
      ensures !exited ==>
        var hash := old(kexHashBuf).value + [HostKey, ClientValue(e), ServerValue(f), SharedSecret(k)];
        && sent == old(sent) + [Sent(KEXDH_REPLY, old(keys), 0, hash), Sent(NEWKEYS, old(keys), 0, [])]
        && expecting == NEWKEYS
    {
      hide NewKeysIn, InOrder, Guarded, Signed, LastCookie, FirstHash, Complete, Session.Logs, Session.Waiting;
      if !recvKexInit {
        exited := true;
        return;
      }
      SendKexDhReply(e, f, k);
      hide Session.Kex;
      FinishExchange();
    }

    /** recv_msg_newkeys */
    method RecvNewKeys()
      requires Logs() && Kex() && !exited && expecting == 0 && (recvKexInit ==> sentNewKeys)
      requires (sentNewKeys || keys > 0)
      modifies this`keys, this`newKeys, this`dhK, this`dataAllowed
      modifies this`sentKexInit, this`recvKexInit, this`sentNewKeys, this`recvNewKeys
      ensures Valid() && Sticky() && !exited && sent == old(sent) && dispatched == old(dispatched)
      ensures keys == old(keys) + if old(sentNewKeys) then 1 else 0
    {
      hide NewKeysIn, InOrder, Guarded, Signed, LastCookie, FirstHash, Complete;
      if sentNewKeys {
        SwitchKeys();
      } else {
        recvNewKeys := true;
      }
      dataAllowed := true;
    }

    /** The session is past its key exchange and waits for any message. */
    ghost predicate Open()
      reads this
    {
      Logs() && !exited && Kex() && !recvKexInit && keys > 0
    }

    /** send_msg_userauth_failure */
    method SendFailure(count: bool)
      requires Open() && !authDone
      modifies this`sent, this`failCount, this`exited
      ensures Logs() && (!exited ==> Open()) && sent == old(sent) + [Sent(USERAUTH_FAILURE, keys, 0, [])]
      ensures failCount == old(failCount) + (if count then 1 else 0) && exited == (failCount >= MAX_AUTH_TRIES)
    {
      hide NewKeysIn, InOrder, Guarded, Signed, LastCookie, FirstHash, Complete;
      Send(USERAUTH_FAILURE, 0, []);
      if count {
        failCount := failCount + 1;
      }
      if failCount >= MAX_AUTH_TRIES {
        exited := true;
      }
    }

    /** checkusername: an account that is missing or may not log in already gets a failure here. */
    method CheckUsername(user: nat, tooLong: bool, accountOk: bool) returns (ok: bool)
      requires Open() && !authDone
      modifies this`sent, this`failCount, this`exited, this`username
      ensures Logs() && (!exited ==> Open()) && ok == (!tooLong && accountOk)
      ensures (ok ==> !exited && username == Some(user))
      ensures sent == old(sent) + if tooLong || accountOk then [] else [Sent(USERAUTH_FAILURE, keys, 0, [])]
      ensures failCount == old(failCount) + if tooLong || accountOk then 0 else 1
      ensures exited == (failCount >= MAX_AUTH_TRIES)
    {
      hide NewKeysIn, InOrder, Guarded, Signed, LastCookie, FirstHash, Complete;
      if tooLong {
        return false;
      }
      if username != Some(user) {
        username := Some(user);
      }
      if !accountOk {
        SendFailure(true);
        return false;
      }
      ok := true;
    }

    method SendSuccess()
      requires Open() && !authDone && username.Some?
      modifies this`sent, this`authDone
      ensures Open() && authDone && sent == old(sent) + [Sent(USERAUTH_SUCCESS, keys, 0, [])]
    {
      hide NewKeysIn, InOrder, Guarded, Signed, LastCookie, FirstHash, Complete;
      Send(USERAUTH_SUCCESS, 0, []);
      authDone := true;
    }

    /** passwordauth, pubkeyauth, or neither */
    method TryMethod(how: Method)
      requires Open() && !authDone && username.Some? && !how.NoMethod?
      modifies this`sent, this`failCount, this`exited, this`authDone
      ensures Logs() && (!exited ==> Open()) && Succeeds(how) == authDone && exited == (failCount >= MAX_AUTH_TRIES)
      ensures sent == old(sent) + [Sent(ReplyTo(how), keys, 0, [])]
      ensures failCount == old(failCount) + (if Counts(how) then 1 else 0)
    {
      hide NewKeysIn, InOrder, Guarded, Signed, LastCookie, FirstHash, Complete;
      match how
      case Password(right) =>
        if right { SendSuccess(); } else { SendFailure(true); }
      case Pubkey(allowed, probe, wellFormed, verified) =>
        if !allowed {
          SendFailure(false);
        } else if probe {
          Send(USERAUTH_PK_OK, 0, []);
        } else if !wellFormed || !verified {
          SendFailure(true);
        } else {
          SendSuccess();
        }
      case OtherMethod =>
        SendFailure(true);
    }

    /** send_msg_userauth_banner, if there is one left */
    method SendBanner()
      requires Open()
      modifies this`sent, this`banner
      ensures Open() && !banner && sent == old(sent) + Plain(if old(banner) then [USERAUTH_BANNER] else [], keys)
    {
      hide NewKeysIn, InOrder, Guarded, Signed, LastCookie, FirstHash, Complete;
      if banner {
        Send(USERAUTH_BANNER, 0, []);
        banner := false;
      }
    }

    /** The part of recv_msg_userauth_request that looks at the method and the user. */
    method Attempt(user: nat, tooLong: bool, accountOk: bool, how: Method)
      requires Open() && !authDone
      modifies this`sent, this`failCount, this`exited, this`username, this`authDone
      ensures Logs() && (!exited ==> Open()) && (exited <==> failCount >= MAX_AUTH_TRIES)
      ensures sent == old(sent) + Plain(Replies(tooLong, true, accountOk, how, old(failCount)), keys)
      ensures failCount == old(failCount) + Failures(tooLong, true, accountOk, how, old(failCount))
      ensures authDone <==> !tooLong && accountOk && Succeeds(how)
      ensures authDone ==> username == Some(user)
    {
      hide NewKeysIn, InOrder, Guarded, Signed, LastCookie, FirstHash, Complete;
      if how.NoMethod? {
        SendFailure(false);
        return;
      }
      var ok := CheckUsername(user, tooLong, accountOk);
      if exited {
        return;
      }
      if !ok {
        SendFailure(true);
      } else {
        TryMethod(how);
      }
    }

    /** recv_msg_userauth_request: requests after authentication are ignored; before it, the banner goes out once, and a
        request gets exactly the specified replies and counts as the specified number of failures. */
    method RecvUserAuthRequest(user: nat, tooLong: bool, lengthOk: bool, nameOk: bool, accountOk: bool, how: Method)
      requires Open()
      modifies this`sent, this`failCount, this`exited, this`username, this`authDone, this`banner
      ensures Logs() && (!exited ==> Open()) && Sticky()
      ensures old(authDone) ==> unchanged(this)
      ensures !old(authDone) ==>
        var service := lengthOk || nameOk;
        && sent == old(sent) + Plain(if old(banner) then [USERAUTH_BANNER] else [], keys) +
             Plain(Replies(tooLong, service, accountOk, how, old(failCount)), keys)
        && !banner && (exited <==> !service || failCount >= MAX_AUTH_TRIES)
        && (authDone <==>
              service && !tooLong && accountOk && (how == Password(true) || how == Pubkey(true, false, true, true)))
        && (authDone ==> username == Some(user))
        && failCount == old(failCount) + Failures(tooLong, service, accountOk, how, old(failCount))
    {
      hide NewKeysIn, InOrder, Guarded, Signed, LastCookie, FirstHash, Complete, Plain, Session.Kex,
        Session.Logs;
      if authDone {
        return;
      }
      SendBanner();
      if !lengthOk && !nameOk {
        exited := true;
        PlainNothing(keys);
        return;
      }
      FewFailures();
      Attempt(user, tooLong, accountOk, how);
    }

    lemma FewFailures()
      requires Kex()
      ensures failCount < MAX_AUTH_TRIES
    {
    }

    /** recv_msg_service_request */
    method RecvServiceRequest(userauth: bool, connection: bool)
      requires Open()
      modifies this`sent, this`exited
      ensures Logs() && (!exited ==> Open())
      ensures exited == !(userauth || (connection && authDone))
      ensures sent == old(sent) + if exited then [] else [Sent(SERVICE_ACCEPT, keys, 0, [])]
    {
      hide NewKeysIn, InOrder, Guarded, Signed, LastCookie, FirstHash, Complete;
      if userauth || (connection && authDone) {
        Send(SERVICE_ACCEPT, 0, []);
      } else {
        exited := true;
      }
    }

    /** n packets that the channel code sends. */
    method SendChannel(n: nat)
      requires Logs() && Kex() && !sentNewKeys
      modifies this`sent
      ensures Logs() && Kex() && old(sent) <= sent && |sent| == |old(sent)| + n
      ensures forall i :: |old(sent)| <= i < |sent| ==> sent[i].msg == CHANNEL_DATA
    {
      hide NewKeysIn, InOrder, Guarded, Signed, LastCookie, FirstHash, Complete;
      for i := 0 to n
        invariant Logs() && Kex() && old(sent) <= sent && |sent| == |old(sent)| + i
        invariant forall i :: |old(sent)| <= i < |sent| ==> sent[i].msg == CHANNEL_DATA
      {
        Send(CHANNEL_DATA, 0, []);
      }
    }

    /** Handing a message to its handler. */
    method Note(msg: nat)
      requires Logs() && (msg !in {KEXINIT, KEXDH_INIT, NEWKEYS} ==> keys > 0)
      requires (CHANNEL_OPEN <= msg < 255 ==> authDone)
      modifies this`dispatched
      ensures Logs() && dispatched == old(dispatched) + [Dispatch(msg, keys, authDone)]
    {
      hide InOrder, Guarded;
      GuardedMore(dispatched, Dispatch(msg, keys, authDone));
      dispatched := dispatched + [Dispatch(msg, keys, authDone)];
    }

    /** The messages that process_packet only takes when nothing particular is expected. */
    method ProcessOther(m: Message)
      requires Open() && expecting == 0 && TypeOf(m) !in {KEXINIT, KEXDH_INIT, NEWKEYS} && !m.Ignored?
      requires !m.Unimplemented? && !m.Disconnect?
      modifies this`exited, this`sent, this`dispatched, this`failCount, this`username, this`authDone, this`banner
      ensures Valid() && Sticky() && Follows(m) && Answers(m) && exited == old(Ends(m))
    {
      hide NewKeysIn, InOrder, Guarded, Signed, LastCookie, FirstHash, Complete;
      if m.ChannelMessage? && !authDone {
        exited := true;
        return;
      }
      Note(TypeOf(m));
      match m
      case ServiceRequest(userauth, connection) =>
        RecvServiceRequest(userauth, connection);
      case UserAuthRequest(user, tooLong, lengthOk, nameOk, accountOk, how) =>
        RecvUserAuthRequest(user, tooLong, lengthOk, nameOk, accountOk, how);
      case ChannelMessage(kind, replies) =>
        SendChannel(replies);
      case Unknown =>
        Send(UNIMPLEMENTED, 0, []);
    }

    /** What becomes of a message: unless it ends the session it is handed to its handler, and only a request to log in
        changes what is known about the user. */
    twostate predicate Follows(m: Message)
      reads this
    {
      && (exited ==> dispatched == old(dispatched) || dispatched == old(dispatched) + old(Handing(m)))
      && (!exited ==>
            && dispatched == old(dispatched) + old(Handing(m))
            && authDone == (old(authDone) || Proves(m))
            && failCount == old(failCount) + old(Failing(m)))
    }

    function Handing(m: Message): seq<Dispatch>
      reads this
    {
      if m.Ignored? then [] else [Dispatch(TypeOf(m), keys, authDone)]
    }

    function Failing(m: Message): nat
      reads this
    {
      if authDone then 0 else CountedFailures(m, failCount)
    }

    /** What the expected message type says about the exchange. */
    lemma MayTake(m: Message)
      requires Valid() && !exited && (expecting == 0 || expecting == TypeOf(m)) && !m.Ignored?
      requires !m.Unimplemented? && !m.Disconnect?
      ensures Kex() && Logs()
      ensures m.KexInit? ==> !recvKexInit
      ensures m.KexDhInit? ==> !sentNewKeys
      ensures m.NewKeys? ==> (recvKexInit ==> sentNewKeys) && (sentNewKeys || keys > 0)
      ensures !m.KexInit? && !m.KexDhInit? && !m.NewKeys? ==> !recvKexInit && keys > 0 && expecting == 0
    {
      hide NewKeysIn, InOrder, Guarded, Signed, LastCookie, FirstHash, Complete, Session.Logs;
    }

    /** The messages that end the session when they come now. */
    predicate Ends(m: Message)
      reads this
    {
      match m
      case Ignored => false
      case Unimplemented => true
      case Disconnect => true
      case KexInit(_, agreed, _) => (expecting != 0 && expecting != KEXINIT) || !agreed
      case KexDhInit(_, _, _) => (expecting != 0 && expecting != KEXDH_INIT) || !recvKexInit
      case NewKeys => expecting != 0 && expecting != NEWKEYS
      case ServiceRequest(userauth, connection) => expecting != 0 || !(userauth || (connection && authDone))
      case ChannelMessage(_, _) => expecting != 0 || !authDone
      case UserAuthRequest(_, _, lengthOk, nameOk, _, _) =>
        expecting != 0 ||
        (!authDone && (!(lengthOk || nameOk) || failCount + CountedFailures(m, failCount) >= MAX_AUTH_TRIES))
      case Unknown => expecting != 0
    }

    /** What is sent for a message that does not end the session, apart from key exchange and authentication. */
    twostate predicate Answers(m: Message)
      reads this
    {
      !exited ==>
        && (m.Ignored? || m.NewKeys? ==> sent == old(sent))
        && (m.Unknown? ==> sent == old(sent) + [Sent(UNIMPLEMENTED, old(keys), 0, [])])
        && (m.ServiceRequest? ==> sent == old(sent) + [Sent(SERVICE_ACCEPT, old(keys), 0, [])])
        && (m.ChannelMessage? ==> |sent| == |old(sent)| + m.replies)
    }

    /** process_packet */
    method ProcessPacket(m: Message)
      requires Valid() && !exited
      modifies this
      ensures Valid() && Sticky() && Follows(m) && Answers(m) && exited == old(Ends(m))
      ensures old(expecting) != 0 && TypeOf(m) != old(expecting) && !m.Ignored? ==> exited && sent == old(sent)
    {
      hide NewKeysIn, InOrder, Guarded, Signed, LastCookie, FirstHash, Complete, Session.Kex, Session.Logs;
      if m.Ignored? {
        return;
      }
      if m.Unimplemented? || m.Disconnect? || (expecting != 0 && expecting != TypeOf(m)) {
        exited := true;
        return;
      }
      MayTake(m);
      expecting := 0;
      if m.KexInit? {
        Note(KEXINIT);
        RecvKexInit(m.cookie, m.agreed, m.reply);
      } else if m.KexDhInit? {
        Note(KEXDH_INIT);
        RecvKexDhInit(m.e, m.f, m.k);
      } else if m.NewKeys? {
        Note(NEWKEYS);
        RecvNewKeys();
      } else {
        ProcessOther(m);
      }
    }

    /** checktimeouts */
    method CheckTimeouts(authExpired: bool, rekeyDue: bool, cookie: nat)
      requires Valid() && !exited
      modifies this`exited, this`sent, this`transKexInit, this`dataAllowed, this`sentKexInit
      ensures Valid() && Sticky() && keys == old(keys)
      ensures exited == (authExpired && !old(authDone))
      ensures sent == old(sent) +
        if !exited && rekeyDue && !old(sentKexInit) then [Sent(KEXINIT, keys, cookie, [])] else []
    {
      hide NewKeysIn, InOrder, Guarded, Signed, LastCookie, FirstHash, Complete;
      if !authDone && authExpired {
        exited := true;
        return;
      }
      if !sentKexInit && rekeyDue {
        SendKexInit(cookie);
      }
    }

    /** channelio, which runs only while data is allowed. */
    method ChannelIo(n: nat)
      requires Valid() && !exited
      modifies this`sent
      ensures Valid() && Sticky()
      ensures |sent| == |old(sent)| + if dataAllowed then n else 0
    {
      hide NewKeysIn, InOrder, Guarded, Signed, LastCookie, FirstHash, Complete;
      if dataAllowed {
        SendChannel(n);
      }
    }

    method Handle(e: Event)
      requires Valid() && !exited
      modifies this
      ensures Valid() && Sticky() && Follows(MessageOf(e))
    {
      hide NewKeysIn, InOrder, Guarded, Signed, LastCookie, FirstHash, Complete, Session.Kex, Session.Waiting,
        Session.Logs;
      assert dispatched + [] == dispatched;
      match e
      case Receive(m) => ProcessPacket(m);
      case Timeouts(authExpired, rekeyDue, cookie) => CheckTimeouts(authExpired, rekeyDue, cookie);
      case ChannelOutput(n) => ChannelIo(n);
    }
  }

  lemma GuardedMore(log: seq<Dispatch>, d: Dispatch)
    requires Guarded(log)
    requires (d.msg !in {KEXINIT, KEXDH_INIT, NEWKEYS} ==> d.key > 0) && (CHANNEL_OPEN <= d.msg < 255 ==> d.authed)
    ensures Guarded(log + [d])
  {
  }

  predicate Succeeds(how: Method) {
    match how
    case Password(right) => right
    case Pubkey(allowed, probe, wellFormed, verified) => allowed && !probe && wellFormed && verified
    case _ => false
  }

  /** A request that shows who the user is, section 5 of RFC 4252: an existing account and a valid proof. */
  predicate Proves(m: Message) {
    m.UserAuthRequest? && (m.lengthOk || m.nameOk) && !m.tooLong && m.accountOk && Succeeds(m.how)
  }

  /** How many failures a message of a user who is not logged in counts as, after failed ones. */
  function CountedFailures(m: Message, failed: nat): nat {
    if m.UserAuthRequest? then Failures(m.tooLong, m.lengthOk || m.nameOk, m.accountOk, m.how, failed) else 0
  }

  /** The message of an event; timeouts and output are as good as none. */
  function MessageOf(e: Event): Message {
    if e.Receive? then e.m else Ignored
  }

  /** Whether a failed attempt counts towards MAX_AUTH_TRIES. */
  predicate Counts(how: Method) {
    !Succeeds(how) && !how.NoMethod? && !(how.Pubkey? && (!how.allowed || how.probe))
  }

  function ReplyTo(how: Method): nat {
    if Succeeds(how) then USERAUTH_SUCCESS
    else if how.Pubkey? && how.allowed && how.probe then USERAUTH_PK_OK
    else USERAUTH_FAILURE
  }

  /** The outcomes of authpasswd.c, authpubkey.c and auth.c one by one: the reply and whether it counts as a failure. */
  lemma AuthOutcomes(how: Method, a: bool, b: bool, failed: nat)
    ensures Replies(false, true, true, Password(true), failed) == [52]
    ensures Replies(false, true, true, Password(false), failed) == [51]
    ensures Replies(false, true, true, Pubkey(false, a, b, true), failed) == [51]
    ensures Replies(false, true, true, Pubkey(false, a, b, false), failed) == [51]
    ensures Replies(false, true, true, Pubkey(true, true, a, b), failed) == [60]
    ensures Replies(false, true, true, Pubkey(true, false, false, a), failed) == [51]
    ensures Replies(false, true, true, Pubkey(true, false, true, false), failed) == [51]
    ensures Replies(false, true, true, Pubkey(true, false, true, true), failed) == [52]
    ensures Replies(false, true, true, OtherMethod, failed) == [51]
    ensures Replies(a, true, b, NoMethod, failed) == [51] && Failures(a, true, b, NoMethod, failed) == 0
    ensures Failures(false, true, true, Password(true), failed) == 0
    ensures Failures(false, true, true, Password(false), failed) == 1
    ensures Failures(false, true, true, Pubkey(false, a, b, true), failed) == 0
    ensures Failures(false, true, true, Pubkey(false, a, b, false), failed) == 0
    ensures Failures(false, true, true, Pubkey(true, true, a, b), failed) == 0
    ensures Failures(false, true, true, Pubkey(true, false, false, a), failed) == 1
    ensures Failures(false, true, true, Pubkey(true, false, true, false), failed) == 1
    ensures Failures(false, true, true, Pubkey(true, false, true, true), failed) == 0
    ensures Failures(false, true, true, OtherMethod, failed) == 1
    ensures Replies(a, false, b, how, failed) == [] && Failures(a, false, b, how, failed) == 0
    ensures how != NoMethod ==> Replies(true, true, a, how, failed) == [51] && Failures(true, true, a, how, failed) == 1
    ensures how != NoMethod && failed < 2 ==>
      Replies(false, true, false, how, failed) == [51, 51] && Failures(false, true, false, how, failed) == 2
    ensures how != NoMethod && failed >= 2 ==>
      Replies(false, true, false, how, failed) == [51] && Failures(false, true, false, how, failed) == 1
  {
  }

  /** A request of an account that may log in, for the one service there is, with the right password or with a verified
      signature of an allowed key. */
  predicate LogsIn(e: Event) {
    && e.Receive? && e.m.UserAuthRequest? && !e.m.tooLong && (e.m.lengthOk || e.m.nameOk) && e.m.accountOk
    && (e.m.how == Password(true) || e.m.how == Pubkey(true, false, true, true))
  }

  /** The replies to a request before authentication: one, except that an account that may not log in is refused twice
      as long as the first refusal does not end the session, and that an unknown service gets none. */
  function Replies(tooLong: bool, service: bool, accountOk: bool, how: Method, failed: nat): seq<nat> {
    if !service then []
    else if how.NoMethod? || tooLong then [USERAUTH_FAILURE]
    else if accountOk then [ReplyTo(how)]
    else if failed + 1 >= MAX_AUTH_TRIES then [USERAUTH_FAILURE]
    else [USERAUTH_FAILURE, USERAUTH_FAILURE]
  }

  /** How many of them count towards MAX_AUTH_TRIES. */
  function Failures(tooLong: bool, service: bool, accountOk: bool, how: Method, failed: nat): nat {
    if !service || how.NoMethod? then 0
    else if tooLong then 1
    else if accountOk then (if Counts(how) then 1 else 0)
    else if failed + 1 >= MAX_AUTH_TRIES then 1 else 2
  }

  lemma PlainNothing(key: nat)
    ensures Plain([], key) == []
  {
  }

  /** Packets of the given types without further contents. */
  function Plain(types: seq<nat>, key: nat): seq<Sent> {
    seq(|types|, i requires 0 <= i < |types| => Sent(types[i], key, 0, []))
  }

  /** The session variables between two turns of the main loop. */
  datatype Moment = Moment(sessionId: Option<seq<Item>>, authDone: bool, keys: nat, failCount: nat)

  ghost predicate Later(a: Moment, b: Moment) {
    && (a.sessionId.Some? ==> b.sessionId == a.sessionId)
    && (a.authDone ==> b.authDone)
    && a.keys <= b.keys
  }

  /** The moments before and after an event that did not end the session. */
  predicate Next(a: Moment, e: Event, b: Moment) {
    var m := MessageOf(e);
    && b.authDone == (a.authDone || Proves(m))
    && b.failCount == a.failCount + if a.authDone then 0 else CountedFailures(m, a.failCount)
  }

  /** What is handed to a handler when the event comes at this moment. */
  function Handed(e: Event, a: Moment): seq<Dispatch> {
    var m := MessageOf(e);
    if m.Ignored? then [] else [Dispatch(TypeOf(m), a.keys, a.authDone)]
  }

  function AllHanded(events: seq<Event>, trace: seq<Moment>, n: nat): seq<Dispatch>
    requires n <= |events| && n <= |trace|
  {
    if n == 0 then [] else AllHanded(events, trace, n - 1) + Handed(events[n - 1], trace[n - 1])
  }

  lemma {:induction false} AllHandedSame(events: seq<Event>, trace: seq<Moment>, m: Moment, n: nat)
    requires n <= |events| && n <= |trace|
    ensures AllHanded(events, trace + [m], n) == AllHanded(events, trace, n)
  {
    if n > 0 {
      AllHandedSame(events, trace, m, n - 1);
    }
  }

  lemma HandedMore(events: seq<Event>, trace: seq<Moment>, m: Moment, n: nat)
    requires n < |events| && n + 1 == |trace|
    ensures AllHanded(events, trace + [m], n + 1) == AllHanded(events, trace, n) + Handed(events[n], trace[n])
  {
    hide Handed;
    AllHandedSame(events, trace, m, n);
  }

  lemma NothingHanded(events: seq<Event>, trace: seq<Moment>)
    ensures AllHanded(events, trace, 0) == []
  {
  }

  /** The number of messages among the first n events that are not ignored. */
  function Received(events: seq<Event>, n: nat): nat
    requires n <= |events|
  {
    if n == 0 then 0
    else Received(events, n - 1) + if events[n - 1].Receive? && !events[n - 1].m.Ignored? then 1 else 0
  }

  /** Every message that is not ignored is handed to its handler in its turn, with the keys and the authentication of
      the moment, and nothing else is. */
  lemma {:induction false} HandedEach(events: seq<Event>, trace: seq<Moment>, n: nat, j: nat)
    requires j < n <= |events| && n <= |trace|
    ensures |AllHanded(events, trace, n)| == Received(events, n)
    ensures events[j].Receive? && !events[j].m.Ignored? ==>
      && Received(events, j) < Received(events, n)
      && AllHanded(events, trace, n)[Received(events, j)] ==
         Dispatch(TypeOf(events[j].m), trace[j].keys, trace[j].authDone)
    decreases n
  {
    hide TypeOf;
    if n > 1 {
      HandedEach(events, trace, n - 1, if j < n - 1 then j else 0);
    }
  }

  /** A request to log in on an account that may, without a proof. */
  predicate Wrong(e: Event) {
    && e.Receive? && e.m.UserAuthRequest? && (e.m.lengthOk || e.m.nameOk) && !e.m.tooLong && e.m.accountOk
    && match e.m.how
       case Password(right) => !right
       case Pubkey(allowed, probe, wellFormed, verified) => allowed && !probe && !(wellFormed && verified)
       case OtherMethod => true
       case NoMethod => false
  }

  function Wrongs(events: seq<Event>, n: nat): nat
    requires n <= |events|
  {
    if n == 0 then 0 else Wrongs(events, n - 1) + if Wrong(events[n - 1]) then 1 else 0
  }

  /** A session in which nobody has logged in lives for at most two wrong attempts, and without any attempt on a wrong
      account or with a wrong proof no failure is counted. */
  lemma {:induction false} ThreeWrong(events: seq<Event>, trace: seq<Moment>, n: nat)
    requires n < |trace| <= |events| + 1 && trace[0].failCount == 0
    requires forall i :: 0 <= i < |trace| - 1 ==> Next(trace[i], events[i], trace[i + 1])
    requires !trace[n].authDone && trace[n].failCount < 3
    ensures Wrongs(events, n) <= trace[n].failCount <= 2
    ensures (forall j :: 0 <= j < n ==> !Wrong(events[j]) && !BadName(events[j])) ==> trace[n].failCount == 0
    decreases n
  {
    if n > 0 {
      assert Next(trace[n - 1], events[n - 1], trace[n]);
      FailuresOf(events[n - 1], trace[n - 1].failCount);
      ThreeWrong(events, trace, n - 1);
    }
  }

  /** A request to log in with a name that is too long or an account that may not. */
  predicate BadName(e: Event) {
    e.Receive? && e.m.UserAuthRequest? && (e.m.lengthOk || e.m.nameOk) && (e.m.tooLong || !e.m.accountOk)
  }

  lemma FailuresOf(e: Event, failed: nat)
    ensures Wrong(e) ==> CountedFailures(MessageOf(e), failed) == 1
    ensures !Wrong(e) && !BadName(e) ==> CountedFailures(MessageOf(e), failed) == 0
  {
  }

  ghost predicate Traced(events: seq<Event>, trace: seq<Moment>) {
    |trace| <= |events| + 1 && forall i :: 0 <= i < |trace| - 1 ==> Next(trace[i], events[i], trace[i + 1])
  }

  /** The moments of a session with this identifier. */
  ghost predicate TraceSound(trace: seq<Moment>, id: Option<seq<Item>>) {
    && (forall i :: 0 <= i < |trace| && trace[i].sessionId.Some? ==> trace[i].sessionId == id)
    && (forall i, j :: 0 <= i <= j < |trace| ==> Later(trace[i], trace[j]))
    && (forall i :: 0 <= i < |trace| ==> MomentSound(trace[i]))
  }

  ghost predicate MomentSound(m: Moment) {
    (m.keys == 0 ==> !m.authDone) && (m.keys > 0 ==> m.sessionId.Some?) && m.failCount < MAX_AUTH_TRIES
  }

  lemma TraceKept(trace: seq<Moment>, id: Option<seq<Item>>, id': Option<seq<Item>>)
    requires TraceSound(trace, id) && (id.Some? ==> id' == id)
    ensures TraceSound(trace, id')
  {
  }

  lemma TraceMore(events: seq<Event>, trace: seq<Moment>, id: Option<seq<Item>>, m: Moment)
    requires 0 < |trace| <= |events| && Traced(events, trace) && TraceSound(trace, id)
    requires (id.Some? ==> m.sessionId == id) && MomentSound(m)
    requires Later(trace[|trace| - 1], m) && Next(trace[|trace| - 1], events[|trace| - 1], m)
    ensures Traced(events, trace + [m]) && TraceSound(trace + [m], m.sessionId)
  {
    hide Next, MomentSound;
  }

  /** child_session: whatever the client sends in whatever order, and whenever timeouts fire and channels have output,
      every packet is encrypted under the right keys, every hash that is signed covers the KEXINIT sent last, nothing
      but key exchange is handled before the first switch of keys, channel messages are handled for authenticated
      users only, and session identifier and authentication are final. Every message is handled under the keys and the
      authentication of its moment, unless it ends the session, and the user is authenticated from the first request
      on that proves it. */
  method RunSession(banner: bool, cookie: nat, events: seq<Event>)
    returns (sent: seq<Sent>, dispatched: seq<Dispatch>, trace: seq<Moment>, exited: bool)
    ensures sent != [] && sent[0] == Sent(KEXINIT, 0, cookie, [])
    ensures trace != [] && trace[0] == Moment(None, false, 0, 0)
    ensures if exited then |trace| <= |events| else |trace| == |events| + 1
    ensures forall i :: 0 <= i < |trace| - 1 ==> Next(trace[i], events[i], trace[i + 1])
    ensures forall i :: 0 <= i < |trace| ==> (trace[i].authDone <==> exists j :: 0 <= j < i && LogsIn(events[j]))
    ensures var n := |trace| - 1;
      dispatched == AllHanded(events, trace, n) ||
      (exited && dispatched == AllHanded(events, trace, n) + Handed(events[n], trace[n]))
    ensures InOrder(sent) && Guarded(dispatched) && Signed(sent)
    ensures forall i :: 0 <= i < |trace| && trace[i].sessionId.Some? ==>
      trace[i].sessionId == FirstHash(sent) && Complete(trace[i].sessionId.value, cookie)
    ensures forall i, j :: 0 <= i <= j < |trace| ==> Later(trace[i], trace[j])
    ensures forall i :: 0 <= i < |trace| ==>
      (trace[i].keys == 0 ==> !trace[i].authDone) && (trace[i].keys > 0 ==> trace[i].sessionId.Some?)
    ensures forall i :: 0 <= i < |trace| ==> trace[i].failCount < MAX_AUTH_TRIES
  {
    hide InOrder, Guarded, Signed, NewKeysIn, LastCookie, FirstHash, Complete, AllHanded;
    var s := new Session(banner, cookie);
    var n := 0;
    trace := [Moment(s.sessionId, s.authDone, s.keys, s.failCount)];
    NothingHanded(events, trace);
    while n < |events| && !s.exited
      invariant s.Valid() && 0 <= n <= |events| && s.sent[0] == Sent(KEXINIT, 0, cookie, [])
      invariant trace != [] && trace[0] == Moment(None, false, 0, 0)
      invariant |trace| == if s.exited then n else n + 1
      invariant Traced(events, trace) && TraceSound(trace, s.sessionId)
      invariant !s.exited ==> trace[|trace| - 1] == Moment(s.sessionId, s.authDone, s.keys, s.failCount)
      invariant !s.exited ==> s.dispatched == AllHanded(events, trace, n)
      invariant s.exited ==>
        || s.dispatched == AllHanded(events, trace, n - 1)
        || s.dispatched == AllHanded(events, trace, n - 1) + Handed(events[n - 1], trace[n - 1])
    {
      hide Traced, TraceSound;
      ghost var id := s.sessionId;
      s.Handle(events[n]);
      TraceKept(trace, id, s.sessionId);
      if !s.exited {
        var m := Moment(s.sessionId, s.authDone, s.keys, s.failCount);
        TraceMore(events, trace, s.sessionId, m);
        HandedMore(events, trace, m, n);
        trace := trace + [m];
      }
      n := n + 1;
    }
    sent, dispatched, exited := s.sent, s.dispatched, s.exited;
    forall i | 0 <= i < |trace|
      ensures trace[i].authDone <==> exists j :: 0 <= j < i && LogsIn(events[j])
    {
      LoggedIn(events, trace, i);
    }
  }

  /** The user is authenticated exactly from the first request on that logs in. */
  lemma {:induction false} LoggedIn(events: seq<Event>, trace: seq<Moment>, i: nat)
    requires i < |trace| <= |events| + 1 && !trace[0].authDone
    requires forall i :: 0 <= i < |trace| - 1 ==> Next(trace[i], events[i], trace[i + 1])
    ensures trace[i].authDone <==> exists j :: 0 <= j < i && LogsIn(events[j])
  {
    if i > 0 {
      LoggedIn(events, trace, i - 1);
      assert Next(trace[i - 1], events[i - 1], trace[i]);
      assert LogsIn(events[i - 1]) <==> Proves(MessageOf(events[i - 1]));
    }
  }
}
