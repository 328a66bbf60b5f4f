/** What every sequence of chat commands keeps: sessions, room membership and delivery. */
module Chat {
  import opened Wrappers
  import opened Masking
  import opened ChatState

  // ---- sessions ----

  ghost predicate UniqueNames(users: seq<User>) {
    forall i, j :: 0 <= i < j < |users| ==> users[i].name != users[j].name
  }

  ghost predicate HasSocket(s: State, name: string) {
    exists c :: c in s.clients && s.clients[c] == name
  }

  /** Sockets and logged-in users correspond one to one; who is not logged in is offline. */
  ghost predicate SessionsOk(s: State) {
    && UniqueNames(s.users)
    && (forall c :: c in s.clients ==> s.clients[c] in s.loggedIn)
    && (forall c, d :: c in s.clients && d in s.clients && s.clients[c] == s.clients[d] ==> c == d)
    && (forall name :: name in s.loggedIn ==> HasSocket(s, name) && IsRegistered(s.users, name))
    && (forall i :: 0 <= i < |s.users| && s.users[i].name !in s.loggedIn ==> s.users[i].status == "offline")
  }

  // ---- membership ----

  ghost predicate NoDuplicates(xs: seq<int>) {
    forall i, j :: 0 <= i < j < |xs| ==> xs[i] != xs[j]
  }

  /** No filter word occurs in the text, in any case. */
  ghost predicate Clean(text: string, words: seq<string>) {
    forall k :: 0 <= k < |words| ==> !Occurs(text, words[k])
  }

  /** No member twice, and nothing stored holds a filter word. */
  ghost predicate RoomOk(room: Room) {
    && NoDuplicates(room.members) && GoodWords(room.filterList)
    && Clean(room.pinned.1, room.filterList)
    && forall i :: 0 <= i < |room.history| ==> Clean(room.history[i].1, room.filterList)
  }

  predicate Mapped(s: State, c: int, r: int) {
    c in s.inRoom && s.inRoom[c] == r
  }

  predicate Listed(s: State, c: int, r: int) {
    r in s.rooms && c in s.rooms[r].members
  }

  /** Socket c is mapped to room r exactly when room r exists and lists c; all members are
      logged in. */
  ghost predicate MembershipOk(s: State) {
    && (forall c, r :: Mapped(s, c, r) <==> Listed(s, c, r))
    && (forall r :: r in s.rooms ==> RoomOk(s.rooms[r]))
    && (forall c :: c in s.inRoom ==> c in s.clients)
  }

  ghost predicate Invariant(s: State) {
    SessionsOk(s) && MembershipOk(s)
  }

  function Empty(): State {
    State([], map[], map[], {}, map[])
  }

  lemma MembersArePlaced(s: State, sock: int)
    requires Invariant(s) && sock in s.inRoom
    ensures Placed(s, sock) && LoggedOn(s, sock) && sock in s.rooms[s.inRoom[sock]].members
  {
    assert Mapped(s, sock, s.inRoom[sock]) && Listed(s, sock, s.inRoom[sock]);
    forall c | c in s.rooms[s.inRoom[sock]].members ensures c in s.clients {
      assert Listed(s, c, s.inRoom[sock]) && Mapped(s, c, s.inRoom[sock]);
    }
  }

  // ---- each command ----

  lemma InvariantIndex(s: State, c: int, r: int)
    requires Invariant(s)
    ensures Mapped(s, c, r) <==> Listed(s, c, r)
    ensures r in s.rooms ==> RoomOk(s.rooms[r])
    ensures c in s.inRoom ==> LoggedOn(s, c)
  {
  }

  lemma MembershipUntouched(s: State, t: State)
    requires MembershipOk(s) && t.rooms == s.rooms && t.inRoom == s.inRoom
    requires forall c :: c in s.inRoom ==> c in t.clients
    ensures MembershipOk(t)
  {
    forall c, r ensures Mapped(t, c, r) <==> Listed(t, c, r) {
      assert Mapped(s, c, r) <==> Listed(s, c, r);
    }
  }

  lemma StatusKeepsNames(users: seq<User>, name: string, status: string)
    ensures UniqueNames(users) ==> UniqueNames(WithStatus(users, name, status))
    ensures forall n :: IsRegistered(WithStatus(users, name, status), n) <==> IsRegistered(users, n)
  {
    var r := WithStatus(users, name, status);
    forall n ensures IsRegistered(r, n) <==> IsRegistered(users, n) {
      if i :| 0 <= i < |users| && users[i].name == n {
        assert r[i].name == n;
      }
    }
  }

  lemma RegisterKeeps(s: State, tokens: seq<string>)
    requires Invariant(s)
    ensures Invariant(Register(s, tokens).0)
  {
    var t := Register(s, tokens).0;
    MembershipUntouched(s, t);
    assert forall n :: IsRegistered(s.users, n) ==> IsRegistered(t.users, n) by {
      forall n | IsRegistered(s.users, n) ensures IsRegistered(t.users, n) {
        var i :| 0 <= i < |s.users| && s.users[i].name == n;
        assert t.users[i].name == n;
      }
    }
    assert forall n :: HasSocket(s, n) ==> HasSocket(t, n);
  }

  lemma SessionAdded(s: State, t: State, sock: int, name: string)
    requires SessionsOk(s) && sock !in s.clients && name !in s.loggedIn && IsRegistered(s.users, name)
    requires t.users == WithStatus(s.users, name, "online") && t.clients == s.clients[sock := name]
    requires t.loggedIn == s.loggedIn + {name}
    ensures SessionsOk(t)
  {
    StatusKeepsNames(s.users, name, "online");
    forall n | n in t.loggedIn ensures HasSocket(t, n) && IsRegistered(t.users, n) {
      SocketAdded(s, t, sock, name, n);
    }
  }

  lemma SocketAdded(s: State, t: State, sock: int, name: string, n: string)
    requires sock !in s.clients && t.clients == s.clients[sock := name] && (n == name || HasSocket(s, n))
    ensures HasSocket(t, n)
  {
    if n == name {
      assert t.clients[sock] == n;
    } else {
      var c :| c in s.clients && s.clients[c] == n;
      assert t.clients[c] == n;
    }
  }

  lemma LoginKeeps(s: State, sock: int, tokens: seq<string>)
    requires Invariant(s) && sock !in s.inRoom
    ensures Invariant(Login(s, sock, tokens).0)
  {
    var t := Login(s, sock, tokens).0;
    MembershipUntouched(s, t);
    if t.loggedIn != s.loggedIn {
      SessionAdded(s, t, sock, tokens[1]);
    }
  }

  lemma LogoutKeeps(s: State, sock: int, tokens: seq<string>)
    requires Invariant(s) && sock !in s.inRoom
    ensures Invariant(Logout(s, sock, tokens).0)
  {
    var t := Logout(s, sock, tokens).0;
    MembershipUntouched(s, t);
    if t != s {
      StatusKeepsNames(s.users, s.clients[sock], "offline");
      forall n | n in t.loggedIn ensures HasSocket(t, n) && IsRegistered(t.users, n) {
        assert HasSocket(s, n);
        var c :| c in s.clients && s.clients[c] == n;
        assert t.clients[c] == n;
      }
    }
  }

  lemma SetStatusKeeps(s: State, sock: int, tokens: seq<string>)
    requires Invariant(s)
    ensures Invariant(SetStatus(s, sock, tokens).0)
  {
    var t := SetStatus(s, sock, tokens).0;
    MembershipUntouched(s, t);
    if t != s {
      StatusSet(s, t, s.clients[sock], tokens[1]);
    }
  }

  lemma StatusSet(s: State, t: State, name: string, status: string)
    requires SessionsOk(s) && name in s.loggedIn
    requires t.users == WithStatus(s.users, name, status) && t.clients == s.clients && t.loggedIn == s.loggedIn
    ensures SessionsOk(t)
  {
    StatusKeepsNames(s.users, name, status);
    assert forall n :: HasSocket(s, n) ==> HasSocket(t, n);
  }

  lemma SessionsUntouched(s: State, t: State)
    requires SessionsOk(s) && t.users == s.users && t.clients == s.clients && t.loggedIn == s.loggedIn
    ensures SessionsOk(t)
  {
    assert forall n :: HasSocket(s, n) ==> HasSocket(t, n);
  }

  lemma MemberAdded(s: State, t: State, sock: int, n: int, room: Room)
    requires MembershipOk(s) && sock !in s.inRoom && sock in s.clients && t.clients == s.clients
    requires if n in s.rooms then room == s.rooms[n] else room.members == [] && RoomOk(room)
    requires t.rooms == s.rooms[n := room.(members := room.members + [sock])] && t.inRoom == s.inRoom[sock := n]
    ensures MembershipOk(t)
  {
    assert Mapped(s, sock, n) <==> Listed(s, sock, n);
    assert RoomOk(room.(members := room.members + [sock]));
    forall c, r ensures Mapped(t, c, r) <==> Listed(t, c, r) {
      assert Mapped(s, c, r) <==> Listed(s, c, r);
    }
  }

  lemma NewRoomOk(owner: string)
    ensures RoomOk(NewRoom(owner))
  {
    FilterListGood();
  }

  lemma EnterKeeps(s: State, sock: int, tokens: seq<string>)
    requires Invariant(s) && sock !in s.inRoom && EnterRoom(s, sock, tokens).Next?
    ensures Invariant(EnterRoom(s, sock, tokens).state)
  {
    var t := EnterRoom(s, sock, tokens).state;
    if t.inRoom != s.inRoom {
      SessionsUntouched(s, t);
      var n := Stoi(tokens[1]).value;
      NewRoomOk(s.clients[sock]);
      MemberAdded(s, t, sock, n, if n in s.rooms then s.rooms[n] else NewRoom(s.clients[sock]));
    }
  }

  lemma CloseKeeps(s: State, sock: int, tokens: seq<string>)
    requires Invariant(s) && CloseRoom(s, sock, tokens).Next?
    ensures Invariant(CloseRoom(s, sock, tokens).state)
  {
    var t := CloseRoom(s, sock, tokens).state;
    if t != s {
      SessionsUntouched(s, t);
      var n := Stoi(tokens[1]).value;
      forall c, r ensures Mapped(t, c, r) <==> Listed(t, c, r) {
        assert Mapped(s, c, r) <==> Listed(s, c, r);
        assert c in Members(s.rooms[n].members) <==> Listed(s, c, n);
        assert Mapped(s, c, n) <==> Listed(s, c, n);
      }
    }
  }

  lemma {:induction false} WithoutEffect(xs: seq<int>, x: int)
    requires NoDuplicates(xs)
    ensures NoDuplicates(Without(xs, x))
    ensures forall y :: y in Without(xs, x) <==> y in xs && y != x
  {
    if xs != [] {
      var rest := xs[1..];
      WithoutEffect(rest, x);
      assert forall y :: y in xs <==> y == xs[0] || y in rest;
      assert xs[0] !in rest by {
        assert forall j :: 0 <= j < |rest| ==> rest[j] == xs[j + 1];
      }
      assert forall j :: 0 < j < |Without(xs, x)| && xs[0] != x ==> Without(xs, x)[j] == Without(rest, x)[j - 1];
    }
  }

  lemma LeaveKeeps(s: State, sock: int, tokens: seq<string>)
    requires Invariant(s) && Placed(s, sock)
    ensures Invariant(LeaveRoom(s, sock, tokens).0)
  {
    var t := LeaveRoom(s, sock, tokens).0;
    if t != s {
      SessionsUntouched(s, t);
      var n := s.inRoom[sock];
      WithoutEffect(s.rooms[n].members, sock);
      forall c, r ensures Mapped(t, c, r) <==> Listed(t, c, r) {
        assert Mapped(s, c, r) <==> Listed(s, c, r);
      }
    }
  }

  /** Room commands other than leaving touch only the history or the pin. */
  lemma SameMembersKeeps(s: State, sock: int, room: Room)
    requires Invariant(s) && Placed(s, sock)
    requires room.members == s.rooms[s.inRoom[sock]].members && RoomOk(room)
    ensures Invariant(WithRoom(s, sock, room))
  {
    var t := WithRoom(s, sock, room);
    SessionsUntouched(s, t);
    forall c, r ensures Mapped(t, c, r) <==> Listed(t, c, r) {
      assert Mapped(s, c, r) <==> Listed(s, c, r);
    }
  }

  lemma EmptyIsClean(words: seq<string>)
    requires GoodWords(words)
    ensures Clean("", words)
  {
  }

  lemma SendKeeps(s: State, sock: int, tokens: seq<string>)
    requires Invariant(s) && Placed(s, sock)
    ensures Invariant(SendMessage(s, sock, tokens).0)
  {
    var room, name := s.rooms[s.inRoom[sock]], s.clients[sock];
    var message := Mask(Joined(tokens), room.filterList);
    InvariantIndex(s, sock, s.inRoom[sock]);
    MaskEffect(Joined(tokens), room.filterList);
    assert Clean(message, room.filterList);
    SameMembersKeeps(s, sock, room.(history := room.history + [(name, message)]));
  }

  lemma PinKeeps(s: State, sock: int, tokens: seq<string>)
    requires Invariant(s) && Placed(s, sock)
    ensures Invariant(SetPin(s, sock, tokens).0) && Invariant(DeletePin(s, sock, tokens).0)
  {
    var room, name := s.rooms[s.inRoom[sock]], s.clients[sock];
    InvariantIndex(s, sock, s.inRoom[sock]);
    EmptyIsClean(room.filterList);
    SameMembersKeeps(s, sock, room.(pinned := ("", "")));
    if |tokens| >= 2 {
      MaskEffect(Joined(tokens[1..]), room.filterList);
      SameMembersKeeps(s, sock, room.(pinned := (name, Mask(Joined(tokens[1..]), room.filterList))));
    }
  }

  lemma RoomCommandKeeps(s: State, sock: int, tokens: seq<string>)
    requires Invariant(s) && Placed(s, sock) && tokens != [] && tokens[0] != ""
    ensures Invariant(RoomCommand(s, sock, tokens).0)
  {
    LeaveKeeps(s, sock, tokens);
    PinKeeps(s, sock, tokens);
    SendKeeps(s, sock, tokens);
  }

  lemma LobbyCommandKeeps(s: State, sock: int, tokens: seq<string>)
    requires Invariant(s) && sock !in s.inRoom && tokens != [] && LobbyCommand(s, sock, tokens).Next?
    ensures Invariant(LobbyCommand(s, sock, tokens).state)
  {
    match tokens[0] {
      case "register" => RegisterKeeps(s, tokens);
      case "login" => LoginKeeps(s, sock, tokens);
      case "logout" => LogoutKeeps(s, sock, tokens);
      case "exit" => LogoutKeeps(s, sock, tokens);
      case "whoami" =>
      case "set-status" => SetStatusKeeps(s, sock, tokens);
      case "list-user" =>
      case "enter-chat-room" => EnterKeeps(s, sock, tokens);
      case "list-chat-room" =>
      case "close-chat-room" => CloseKeeps(s, sock, tokens);
      case _ =>
    }
  }

  /** Every command, from any socket, keeps the invariant. This needs the routing: logging in or out and
      entering happen only outside rooms, leaving only inside. */
  lemma HandleKeeps(s: State, sock: int, tokens: seq<string>)
    requires Invariant(s) && forall i :: 0 <= i < |tokens| ==> tokens[i] != ""
    ensures Handle(s, sock, tokens).Next? ==> Invariant(Handle(s, sock, tokens).state)
  {
    if sock in s.inRoom {
      MembersArePlaced(s, sock);
      if tokens != [] {
        RoomCommandKeeps(s, sock, tokens);
      }
    } else if tokens != [] && LobbyCommand(s, sock, tokens).Next? {
      LobbyCommandKeeps(s, sock, tokens);
    }
  }

  // ---- runs ----

  datatype Command = Command(sock: int, tokens: seq<string>)

  predicate Words(commands: seq<Command>) {
    forall k, i :: 0 <= k < |commands| && 0 <= i < |commands[k].tokens| ==> commands[k].tokens[i] != ""
  }

  /** The state after the commands; None once the server has ended. */
  function Run(commands: seq<Command>): Option<State>
    requires Words(commands)
  {
    if commands == [] then Some(Empty())
    else
      match Run(commands[..|commands| - 1])
      case None => None
      case Some(s) =>
        match Handle(s, commands[|commands| - 1].sock, commands[|commands| - 1].tokens)
        case Crash => None
        case Next(t, sent) => Some(t)
  }

  lemma {:induction false} RunInvariant(commands: seq<Command>)
    requires Words(commands) && Run(commands).Some?
    ensures Invariant(Run(commands).value)
    decreases |commands|
  {
    if commands != [] {
      var front, last := commands[..|commands| - 1], commands[|commands| - 1];
      RunInvariant(front);
      HandleKeeps(Run(front).value, last.sock, last.tokens);
    }
  }

  /** The word that std::stoi is given, if the command gets that far. */
  predicate NumberTooLong(s: State, sock: int, tokens: seq<string>) {
    && |tokens| == 2 && tokens[0] in ["enter-chat-room", "close-chat-room"]
    && sock !in s.inRoom && LoggedOn(s, sock) && Stoi(tokens[1]).OutOfRange?
  }

  lemma LobbyEnds(s: State, sock: int, tokens: seq<string>)
    requires tokens != [] && sock !in s.inRoom
    ensures LobbyCommand(s, sock, tokens).Crash? <==> NumberTooLong(s, sock, tokens)
  {
  }

  /** After any commands one thing ends the server: a logged-in user in the lobby who enters or closes a room
      whose number does not fit an int. No room command ever misses its room or a user of
      it. */
  lemma EndsOnlyOnNumber(commands: seq<Command>, sock: int, tokens: seq<string>)
    requires Words(commands) && Run(commands).Some? && forall i :: 0 <= i < |tokens| ==> tokens[i] != ""
    ensures Handle(Run(commands).value, sock, tokens).Crash? <==> NumberTooLong(Run(commands).value, sock, tokens)
  {
    RunInvariant(commands);
    var s := Run(commands).value;
    if sock in s.inRoom {
      MembersArePlaced(s, sock);
    } else if tokens != [] {
      LobbyEnds(s, sock, tokens);
    }
  }

  lemma {:induction false} AllDigits(s: string)
    requires forall i :: 0 <= i < |s| ==> IsDigit(s[i])
    ensures LeadingDigits(s) == |s|
    decreases |s|
  {
    if s != "" {
      AllDigits(s[1..]);
    }
  }

  /** The least number that does not fit: 2147483648. */
  lemma TwoToThe31(s: string)
    requires s == "2147483648"
    ensures Stoi(s) == OutOfRange
  {
    AllDigits(s);
    assert s[..10] == s;
    var front := s[..5];
    assert front == "21474" && Number(front) == 21474 by {
      FirstFive(front);
    }
    assert s[..6][..5] == s[..7][..6][..5] == front;
    assert Number(s[..6]) == 214748;
    assert s[..7][..6] == s[..6] && Number(s[..7]) == 2147483;
    assert s[..8][..7] == s[..7] && Number(s[..8]) == 21474836;
    assert s[..9][..8] == s[..8] && Number(s[..9]) == 214748364;
    assert s[..10][..9] == s[..9] && Number(s) == 2147483648;
  }

  lemma FirstFive(s: string)
    requires s == "21474"
    ensures (forall i :: 0 <= i < |s| ==> IsDigit(s[i])) && Number(s) == 21474
  {
    assert s[..0] == "" && s[..1][..0] == s[..0] && Number(s[..1]) == 2;
    assert s[..2][..1] == s[..1] && Number(s[..2]) == 21;
    assert s[..3][..2] == s[..2] && Number(s[..3]) == 214;
    assert s[..4][..3] == s[..3] && Number(s[..4]) == 2147;
    assert s[..5][..4] == s[..4] && s[..5] == s;
  }

  lemma RegisteredFirst(s: State, tokens: seq<string>)
    requires s == Empty() && tokens == ["register", "a", "b"]
    ensures Handle(s, 1, tokens).Next? && Handle(s, 1, tokens).state == s.(users := [User("a", "b", "offline")])
  {
    assert !IsRegistered(s.users, tokens[1]);
  }

  lemma LoggedInSecond(s: State, tokens: seq<string>)
    requires s == Empty().(users := [User("a", "b", "offline")]) && tokens == ["login", "a", "b"]
    ensures Handle(s, 1, tokens).Next?
    ensures var t := Handle(s, 1, tokens).state; LoggedOn(t, 1) && 1 !in t.inRoom
  {
    assert s.users[0].name == tokens[1] && s.users[0].password == tokens[2];
    assert PasswordFits(s.users, tokens[1], tokens[2]);
  }

  lemma TooLongEnds(s: State, tokens: seq<string>)
    requires LoggedOn(s, 1) && 1 !in s.inRoom && tokens == ["enter-chat-room", "2147483648"]
    ensures Handle(s, 1, tokens).Crash?
  {
    TwoToThe31(tokens[1]);
    LobbyEnds(s, 1, tokens);
  }

  /** Three commands that end the server. */
  lemma ThreeCommandsEnd(commands: seq<Command>, tokens: seq<string>)
    requires commands == [Command(1, ["register", "a", "b"]), Command(1, ["login", "a", "b"])]
    requires tokens == ["enter-chat-room", "2147483648"]
    ensures Words(commands) && Run(commands).Some?
    ensures Handle(Run(commands).value, 1, tokens).Crash?
  {
    var first := commands[..1];
    assert first[..0] == [] && Run(first[..0]) == Some(Empty());
    RegisteredFirst(Empty(), first[0].tokens);
    LoggedInSecond(Run(first).value, commands[1].tokens);
    TooLongEnds(Run(commands).value, tokens);
  }

  /** Main result: after any commands the membership map and the member lists are inverse to each other, every
      member is logged in, no list has duplicates, and no stored line or pin holds a filter word. */
  lemma MembershipIndex(commands: seq<Command>, c: int, r: int)
    requires Words(commands) && Run(commands).Some?
    ensures var s := Run(commands).value;
      && (Mapped(s, c, r) <==> Listed(s, c, r))
      && (r in s.rooms ==> RoomOk(s.rooms[r]))
      && (c in s.inRoom ==> LoggedOn(s, c))
  {
    RunInvariant(commands);
    InvariantIndex(Run(commands).value, c, r);
  }

  /** After any commands user names are unique, sockets and logged-in users correspond one to one, and everyone
      else is offline. */
  lemma SessionsOneToOne(commands: seq<Command>, c: int, d: int, user: User)
    requires Words(commands) && Run(commands).Some?
    ensures var s := Run(commands).value;
      && UniqueNames(s.users)
      && (c in s.clients && d in s.clients && s.clients[c] == s.clients[d] ==> c == d)
      && (user.name in s.loggedIn <==> HasSocket(s, user.name))
      && (user in s.users && user.name !in s.loggedIn ==> user.status == "offline")
  {
    RunInvariant(commands);
    SessionFacts(Run(commands).value, c, d, user);
  }

  lemma SessionFacts(s: State, c: int, d: int, user: User)
    requires SessionsOk(s)
    ensures c in s.clients && d in s.clients && s.clients[c] == s.clients[d] ==> c == d
    ensures user.name in s.loggedIn <==> HasSocket(s, user.name)
    ensures user in s.users && user.name !in s.loggedIn ==> user.status == "offline"
  {
  }

  // ---- delivery ----

  /** How many times the text went to socket c. */
  function Copies(sent: seq<Output>, c: int, text: Text): nat {
    if sent == [] then 0
    else Copies(sent[..|sent| - 1], c, text) + (if sent[|sent| - 1] == Output(c, text) then 1 else 0)
  }

  lemma {:induction false} BroadcastOnce(members: seq<int>, except: int, text: Text, c: int)
    requires NoDuplicates(members)
    ensures Copies(Broadcast(members, except, text), c, text) == (if c in members && c != except then 1 else 0)
    ensures |Broadcast(members, except, text)| <= |members|
  {
    if members != [] {
      var front, last := members[..|members| - 1], members[|members| - 1];
      BroadcastOnce(front, except, text, c);
      var sent := Broadcast(front, except, text);
      assert (sent + [Output(last, text)])[..|sent|] == sent;
      assert Broadcast(members, except, text) == if last == except then sent else sent + [Output(last, text)];
      assert forall j :: 0 <= j < |front| ==> front[j] == members[j] != last;
      assert c in members <==> c in front || c == last;
    }
  }

  lemma SentToAllOnce(s: State, sock: int, text: Text, c: int)
    requires Invariant(s) && sock in s.inRoom
    ensures Placed(s, sock)
    ensures var members := s.rooms[s.inRoom[sock]].members;
      Copies(Broadcast(members, sock, text) + [Output(sock, text)], c, text) == (if c in members then 1 else 0)
  {
    MembersArePlaced(s, sock);
    InvariantIndex(s, sock, s.inRoom[sock]);
    var sent := Broadcast(s.rooms[s.inRoom[sock]].members, sock, text);
    BroadcastOnce(s.rooms[s.inRoom[sock]].members, sock, text, c);
    assert (sent + [Output(sock, text)])[..|sent|] == sent;
  }

  /** A chat line, masked, goes exactly once to every member of the room, the sender included, and to nobody
      else; masking leaves no filter word in it. */
  lemma ChatDelivered(s: State, sock: int, tokens: seq<string>, c: int)
    requires Invariant(s) && sock in s.inRoom && tokens != [] && tokens[0] != "" && tokens[0][0] != '/'
    ensures Placed(s, sock)
    ensures var room := s.rooms[s.inRoom[sock]];
      var line := Chat(s.clients[sock], Mask(Joined(tokens), room.filterList));
      && Copies(RoomCommand(s, sock, tokens).1, c, line) == (if c in room.members then 1 else 0)
      && Clean(line.message, room.filterList)
  {
    MembersArePlaced(s, sock);
    var room := s.rooms[s.inRoom[sock]];
    SentToAllOnce(s, sock, Chat(s.clients[sock], Mask(Joined(tokens), room.filterList)), c);
    MaskEffect(Joined(tokens), room.filterList);
    assert RoomCommand(s, sock, tokens) == SendMessage(s, sock, tokens);
  }

  /** So does a pinned message. */
  lemma PinDelivered(s: State, sock: int, tokens: seq<string>, c: int)
    requires Invariant(s) && sock in s.inRoom && |tokens| >= 2 && tokens[0] == "/pin"
    ensures Placed(s, sock)
    ensures var room := s.rooms[s.inRoom[sock]];
      var pin := Pin(s.clients[sock], Mask(Joined(tokens[1..]), room.filterList));
      && Copies(RoomCommand(s, sock, tokens).1, c, pin) == (if c in room.members then 1 else 0)
      && Clean(pin.message, room.filterList)
  {
    MembersArePlaced(s, sock);
    var room := s.rooms[s.inRoom[sock]];
    SentToAllOnce(s, sock, Pin(s.clients[sock], Mask(Joined(tokens[1..]), room.filterList)), c);
    MaskEffect(Joined(tokens[1..]), room.filterList);
    assert RoomCommand(s, sock, tokens) == SetPin(s, sock, tokens);
  }
}
