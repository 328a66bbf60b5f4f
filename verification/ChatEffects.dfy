/** What each command of the chat server changes, and nothing else: accounts, sessions, rooms, lines and answers,
    after any sequence of commands. */
module ChatEffects {
  import opened Wrappers
  import opened Masking
  import opened ChatState
  import opened Chat

  // ---- which commands take effect ----

  predicate Registers(s: State, sock: int, tokens: seq<string>) {
    sock !in s.inRoom && |tokens| == 3 && tokens[0] == "register" && !IsRegistered(s.users, tokens[1])
  }

  predicate LogsIn(s: State, sock: int, tokens: seq<string>) {
    && sock !in s.inRoom && |tokens| == 3 && tokens[0] == "login"
    && !LoggedOn(s, sock) && tokens[1] !in s.loggedIn
    && exists i :: 0 <= i < |s.users| && s.users[i].name == tokens[1] && s.users[i].password == tokens[2]
  }

  predicate LogsOut(s: State, sock: int, tokens: seq<string>) {
    sock !in s.inRoom && LoggedOn(s, sock) && (tokens == ["logout"] || tokens == ["exit"])
  }

  predicate SetsStatus(s: State, sock: int, tokens: seq<string>) {
    && sock !in s.inRoom && LoggedOn(s, sock) && |tokens| == 2 && tokens[0] == "set-status"
    && (tokens[1] == "online" || tokens[1] == "offline" || tokens[1] == "busy")
  }

  predicate Enters(s: State, sock: int, tokens: seq<string>, r: int) {
    && sock !in s.inRoom && LoggedOn(s, sock) && |tokens| == 2 && tokens[0] == "enter-chat-room"
    && Stoi(tokens[1]) == Int(r) && 1 <= r <= 100
  }

  predicate Closes(s: State, sock: int, tokens: seq<string>, r: int) {
    && sock !in s.inRoom && LoggedOn(s, sock) && |tokens| == 2 && tokens[0] == "close-chat-room"
    && Stoi(tokens[1]) == Int(r) && r in s.rooms && s.rooms[r].owner == s.clients[sock]
  }

  predicate Speaks(s: State, sock: int, tokens: seq<string>, r: int) {
    Mapped(s, sock, r) && tokens != [] && tokens[0] != "" && tokens[0][0] != '/'
  }

  predicate Pins(s: State, sock: int, tokens: seq<string>, r: int) {
    Mapped(s, sock, r) && |tokens| >= 2 && tokens[0] == "/pin"
  }

  predicate Unpins(s: State, sock: int, tokens: seq<string>, r: int) {
    Mapped(s, sock, r) && tokens == ["/delete-pin"] && r in s.rooms && s.rooms[r].pinned.0 != ""
  }

  predicate Leaves(s: State, sock: int, tokens: seq<string>, r: int) {
    Mapped(s, sock, r) && tokens == ["/exit-chat-room"]
  }

  predicate NonEmpty(tokens: seq<string>) {
    forall i :: 0 <= i < |tokens| ==> tokens[i] != ""
  }

  // ---- accounts and sessions ----

  lemma RoomCommandsKeepAccounts(s: State, sock: int, tokens: seq<string>)
    requires Placed(s, sock) && tokens != [] && NonEmpty(tokens)
    ensures var t := RoomCommand(s, sock, tokens).0;
      t.users == s.users && t.clients == s.clients && t.loggedIn == s.loggedIn
  {
  }

  /** Lobby commands about accounts and sessions. */
  predicate AboutAccounts(word: string) {
    word == "register" || word == "login" || word == "logout" || word == "exit" || word == "set-status"
  }

  lemma OtherCommandsKeepAccounts(s: State, sock: int, tokens: seq<string>)
    requires tokens != [] && !AboutAccounts(tokens[0]) && LobbyCommand(s, sock, tokens).Next?
    ensures var t := LobbyCommand(s, sock, tokens).state;
      t.users == s.users && t.clients == s.clients && t.loggedIn == s.loggedIn
  {
  }

  /** The users, clients and names in use after one of these commands. */
  ghost predicate AccountEffect(s: State, sock: int, tokens: seq<string>, t: State) {
    if Registers(s, sock, tokens) then
      t.users == s.users + [User(tokens[1], tokens[2], "offline")] && t.clients == s.clients && t.loggedIn == s.loggedIn
    else if LogsIn(s, sock, tokens) then
      && t.users == WithStatus(s.users, tokens[1], "online")
      && t.clients == s.clients[sock := tokens[1]] && t.loggedIn == s.loggedIn + {tokens[1]}
    else if LogsOut(s, sock, tokens) then
      && t.users == WithStatus(s.users, s.clients[sock], "offline")
      && t.clients == s.clients - {sock} && t.loggedIn == s.loggedIn - {s.clients[sock]}
    else if SetsStatus(s, sock, tokens) then
      && t.users == WithStatus(s.users, s.clients[sock], tokens[1])
      && t.clients == s.clients && t.loggedIn == s.loggedIn
    else t.users == s.users && t.clients == s.clients && t.loggedIn == s.loggedIn
  }

  lemma RegisterEffect(s: State, sock: int, tokens: seq<string>)
    requires sock !in s.inRoom && tokens != [] && tokens[0] == "register"
    ensures AccountEffect(s, sock, tokens, Register(s, tokens).0)
  {
  }

  lemma LoginEffect(s: State, sock: int, tokens: seq<string>)
    requires sock !in s.inRoom && tokens != [] && tokens[0] == "login"
    ensures AccountEffect(s, sock, tokens, Login(s, sock, tokens).0)
  {
  }

  lemma LogoutEffect(s: State, sock: int, tokens: seq<string>)
    requires sock !in s.inRoom && tokens != [] && (tokens[0] == "logout" || tokens[0] == "exit")
    ensures AccountEffect(s, sock, tokens, Logout(s, sock, tokens).0)
  {
    assert |tokens| == 1 ==> tokens == [tokens[0]];
  }

  lemma StatusEffect(s: State, sock: int, tokens: seq<string>)
    requires sock !in s.inRoom && tokens != [] && tokens[0] == "set-status"
    ensures AccountEffect(s, sock, tokens, SetStatus(s, sock, tokens).0)
  {
  }

  lemma StateInLobby(s: State, sock: int, tokens: seq<string>)
    requires tokens != [] && AboutAccounts(tokens[0])
    ensures LobbyCommand(s, sock, tokens).Next?
    ensures LobbyCommand(s, sock, tokens).state ==
      if tokens[0] == "register" then Register(s, tokens).0
      else if tokens[0] == "login" then Login(s, sock, tokens).0
      else if tokens[0] == "set-status" then SetStatus(s, sock, tokens).0
      else Logout(s, sock, tokens).0
  {
  }

  lemma NoAccountEffect(s: State, sock: int, tokens: seq<string>, t: State)
    requires tokens != [] && (!AboutAccounts(tokens[0]) || sock in s.inRoom)
    requires t.users == s.users && t.clients == s.clients && t.loggedIn == s.loggedIn
    ensures AccountEffect(s, sock, tokens, t)
  {
  }

  lemma EffectInLobby(s: State, sock: int, tokens: seq<string>, t: State)
    requires sock !in s.inRoom && tokens != [] && LobbyCommand(s, sock, tokens).Next?
    requires t == LobbyCommand(s, sock, tokens).state
    ensures AccountEffect(s, sock, tokens, t)
  {
    if AboutAccounts(tokens[0]) {
      StateInLobby(s, sock, tokens);
      if tokens[0] == "register" {
        RegisterEffect(s, sock, tokens);
      } else if tokens[0] == "login" {
        LoginEffect(s, sock, tokens);
      } else if tokens[0] == "set-status" {
        StatusEffect(s, sock, tokens);
      } else {
        LogoutEffect(s, sock, tokens);
      }
    } else {
      OtherCommandsKeepAccounts(s, sock, tokens);
      NoAccountEffect(s, sock, tokens, t);
    }
  }

  /** What any command does to accounts and sessions: one more account, one with another status, one session more or
      less, or nothing. */
  lemma AccountsAfter(s: State, sock: int, tokens: seq<string>)
    requires Invariant(s) && NonEmpty(tokens) && Handle(s, sock, tokens).Next?
    ensures AccountEffect(s, sock, tokens, Handle(s, sock, tokens).state)
  {
    if tokens != [] {
      if sock in s.inRoom {
        MembersArePlaced(s, sock);
        RoomCommandsKeepAccounts(s, sock, tokens);
        NoAccountEffect(s, sock, tokens, Handle(s, sock, tokens).state);
      } else {
        EffectInLobby(s, sock, tokens, LobbyCommand(s, sock, tokens).state);
      }
    }
  }

  /** The answer tells what happened. */
  lemma RegisterTells(s: State, sock: int, tokens: seq<string>)
    requires sock !in s.inRoom && tokens != [] && tokens[0] == "register"
    ensures Register(s, tokens).1 == Registered <==> Registers(s, sock, tokens)
  {
  }

  lemma LoginTells(s: State, sock: int, tokens: seq<string>, name: string)
    requires sock !in s.inRoom && tokens != [] && tokens[0] == "login"
    ensures Login(s, sock, tokens).1 == Welcome(name) <==> LogsIn(s, sock, tokens) && name == tokens[1]
    ensures Login(s, sock, tokens).0 != s ==> LogsIn(s, sock, tokens)
  {
  }

  lemma LogoutTells(s: State, sock: int, tokens: seq<string>, name: string)
    requires sock !in s.inRoom && tokens != [] && (tokens[0] == "logout" || tokens[0] == "exit")
    ensures Logout(s, sock, tokens).1 == Bye(name) <==> LogsOut(s, sock, tokens) && name == s.clients[sock]
  {
  }

  lemma StatusTells(s: State, sock: int, tokens: seq<string>, name: string, status: string)
    requires sock !in s.inRoom && tokens != [] && tokens[0] == "set-status"
    ensures SetStatus(s, sock, tokens).1 == StatusSet(name, status)
       <==> SetsStatus(s, sock, tokens) && name == s.clients[sock] && status == tokens[1]
  {
  }

  lemma ListingTells(s: State, sock: int, tokens: seq<string>)
    ensures Query(s, sock, tokens) == Listing <==> LoggedOn(s, sock) && |tokens| == 1
  {
  }

  /** And a refusal tells why. */
  lemma AccountRefusals(s: State, sock: int, tokens: seq<string>)
    ensures Register(s, tokens).1 == NameUsed <==> |tokens| == 3 && IsRegistered(s.users, tokens[1])
    ensures Login(s, sock, tokens).1 == LogoutFirst <==> |tokens| == 3 && LoggedOn(s, sock)
    ensures Login(s, sock, tokens).1 == LoginFailed <==>
      |tokens| == 3 && !LoggedOn(s, sock) && (tokens[1] in s.loggedIn || !PasswordFits(s.users, tokens[1], tokens[2]))
    ensures Logout(s, sock, tokens).1 == LoginFirst <==> |tokens| == 1 && !LoggedOn(s, sock)
    ensures SetStatus(s, sock, tokens).1 == LoginFirst <==> |tokens| == 2 && !LoggedOn(s, sock)
    ensures Query(s, sock, tokens) == LoginFirst <==> |tokens| == 1 && !LoggedOn(s, sock)
  {
  }

  lemma RoomRefusals(s: State, sock: int, tokens: seq<string>)
    requires |tokens| == 2 && LoggedOn(s, sock) && !Stoi(tokens[1]).OutOfRange?
    ensures EnterRoom(s, sock, tokens) == Next(s, [Output(sock, BadNumber)])
       <==> forall r :: Stoi(tokens[1]) == Int(r) ==> r < 1 || 100 < r
    ensures CloseRoom(s, sock, tokens) == Next(s, [Output(sock, NoSuchRoom)])
       <==> forall r :: Stoi(tokens[1]) == Int(r) ==> r !in s.rooms
    ensures CloseRoom(s, sock, tokens) == Next(s, [Output(sock, NotOwner)])
       <==> exists r :: Stoi(tokens[1]) == Int(r) && r in s.rooms && s.rooms[r].owner != s.clients[sock]
  {
    var parsed := Stoi(tokens[1]);
    if parsed.Int? {
      assert Stoi(tokens[1]) == Int(parsed.value);
    }
  }

  lemma LoginRouted(s: State, sock: int, name: string, password: string)
    requires sock !in s.inRoom && name != "" && password != ""
    ensures Handle(s, sock, ["login", name, password]) == Answer(sock, Login(s, sock, ["login", name, password]))
  {
  }

  /** The password with which the name was first registered, in the lobby and with three words. */
  function PasswordOf(commands: seq<Command>, name: string): Option<string>
    requires Words(commands) && Run(commands).Some?
  {
    if commands == [] then None
    else
      var front, last := commands[..|commands| - 1], commands[|commands| - 1];
      var before := PasswordOf(front, name);
      if before.Some? then before
      else if |last.tokens| == 3 && last.tokens[0] == "register" && last.tokens[1] == name
              && last.sock !in Run(front).value.inRoom then Some(last.tokens[2])
      else None
  }

  ghost predicate HasAccount(users: seq<User>, name: string, password: string) {
    exists i :: 0 <= i < |users| && users[i].name == name && users[i].password == password
  }

  lemma StatusKeepsAccounts(users: seq<User>, who: string, status: string, name: string, password: string)
    ensures HasAccount(WithStatus(users, who, status), name, password) <==> HasAccount(users, name, password)
  {
    var r := WithStatus(users, who, status);
    if i :| 0 <= i < |users| && users[i].name == name && users[i].password == password {
      assert r[i].name == name && r[i].password == password;
    }
  }

  lemma AccountAdded(users: seq<User>, user: User, name: string, password: string)
    ensures HasAccount(users + [user], name, password)
       <==> HasAccount(users, name, password) || (user.name == name && user.password == password)
  {
    var r := users + [user];
    assert r[|users|] == user;
    if i :| 0 <= i < |users| && users[i].name == name && users[i].password == password {
      assert r[i].name == name && r[i].password == password;
    }
  }

  /** One command changes whether an account exists only by registering a free name. */
  lemma AccountAfter(s: State, sock: int, tokens: seq<string>, name: string, password: string)
    requires Invariant(s) && NonEmpty(tokens) && Handle(s, sock, tokens).Next?
    ensures HasAccount(Handle(s, sock, tokens).state.users, name, password) <==>
      || HasAccount(s.users, name, password)
      || (Registers(s, sock, tokens) && tokens[1] == name && tokens[2] == password)
  {
    AccountsAfter(s, sock, tokens);
    if Registers(s, sock, tokens) {
      AccountAdded(s.users, User(tokens[1], tokens[2], "offline"), name, password);
    } else if LogsIn(s, sock, tokens) {
      StatusKeepsAccounts(s.users, tokens[1], "online", name, password);
    } else if LogsOut(s, sock, tokens) {
      StatusKeepsAccounts(s.users, s.clients[sock], "offline", name, password);
    } else if SetsStatus(s, sock, tokens) {
      StatusKeepsAccounts(s.users, s.clients[sock], tokens[1], name, password);
    }
  }

  lemma {:induction false} AccountsByCommands(commands: seq<Command>, name: string, password: string)
    requires Words(commands) && Run(commands).Some?
    ensures HasAccount(Run(commands).value.users, name, password) <==> PasswordOf(commands, name) == Some(password)
    ensures IsRegistered(Run(commands).value.users, name) <==> PasswordOf(commands, name).Some?
    decreases |commands|
  {
    if commands != [] {
      var front, last := commands[..|commands| - 1], commands[|commands| - 1];
      var s := Run(front).value;
      RunInvariant(front);
      AccountsByCommands(front, name, password);
      AccountAfter(s, last.sock, last.tokens, name, password);
      NameAfter(s, last.sock, last.tokens, name);
    }
  }

  lemma NameAfter(s: State, sock: int, tokens: seq<string>, name: string)
    requires Invariant(s) && NonEmpty(tokens) && Handle(s, sock, tokens).Next?
    ensures IsRegistered(Handle(s, sock, tokens).state.users, name) <==>
      IsRegistered(s.users, name) || (Registers(s, sock, tokens) && tokens[1] == name)
  {
    var users := Handle(s, sock, tokens).state.users;
    if i :| 0 <= i < |s.users| && s.users[i].name == name {
      AccountAfter(s, sock, tokens, name, s.users[i].password);
    }
    if i :| 0 <= i < |users| && users[i].name == name {
      AccountAfter(s, sock, tokens, name, users[i].password);
    }
    if Registers(s, sock, tokens) && tokens[1] == name {
      AccountAfter(s, sock, tokens, name, tokens[2]);
    }
  }

  /** Main result on logging in, after any commands: from the lobby it succeeds exactly when the socket is not logged
      on, the name is not in use, and the password is the one of the first registration of the name. */
  lemma LoginDecided(commands: seq<Command>, sock: int, name: string, password: string)
    requires Words(commands) && Run(commands).Some? && sock !in Run(commands).value.inRoom
    requires name != "" && password != ""
    ensures var s := Run(commands).value; var outcome := Handle(s, sock, ["login", name, password]);
      && outcome.Next? && |outcome.sent| == 1
      && (outcome.sent[0] == Output(sock, Welcome(name))
          <==> !LoggedOn(s, sock) && name !in s.loggedIn && PasswordOf(commands, name) == Some(password))
      && (if outcome.sent[0] == Output(sock, Welcome(name)) then
            outcome.state.clients == s.clients[sock := name] && outcome.state.loggedIn == s.loggedIn + {name}
          else outcome.state == s)
  {
    var s, tokens := Run(commands).value, ["login", name, password];
    RunInvariant(commands);
    AccountsByCommands(commands, name, password);
    LoginRouted(s, sock, name, password);
    LoginTells(s, sock, tokens, name);
  }

  // ---- rooms ----

  lemma RoomAfterRoomCommand(s: State, sock: int, tokens: seq<string>, r: int)
    requires Placed(s, sock) && tokens != [] && NonEmpty(tokens)
    ensures var t := RoomCommand(s, sock, tokens).0;
      (r in t.rooms <==> r in s.rooms) && (r in s.rooms && !Mapped(s, sock, r) ==> t.rooms[r] == s.rooms[r])
  {
  }

  lemma RoomsInLobby(s: State, sock: int, tokens: seq<string>, r: int)
    requires sock !in s.inRoom && tokens != [] && LobbyCommand(s, sock, tokens).Next?
    ensures r in LobbyCommand(s, sock, tokens).state.rooms
       <==> (r in s.rooms && !Closes(s, sock, tokens, r)) || Enters(s, sock, tokens, r)
  {
  }

  /** Rooms come by entering a number from 1 to 100 that is free, and go when their owner closes them. */
  lemma RoomsAfter(s: State, sock: int, tokens: seq<string>, r: int)
    requires Invariant(s) && NonEmpty(tokens) && Handle(s, sock, tokens).Next?
    ensures r in Handle(s, sock, tokens).state.rooms
       <==> (r in s.rooms && !Closes(s, sock, tokens, r)) || Enters(s, sock, tokens, r)
  {
    if sock in s.inRoom {
      MembersArePlaced(s, sock);
      if tokens != [] {
        RoomAfterRoomCommand(s, sock, tokens, r);
      }
    } else if tokens != [] {
      RoomsInLobby(s, sock, tokens, r);
    }
  }

  /** A new room belongs to the user who entered it and holds nothing but that user's socket. */
  lemma NewRoomAfter(s: State, sock: int, tokens: seq<string>, r: int)
    requires Invariant(s) && NonEmpty(tokens) && Enters(s, sock, tokens, r) && r !in s.rooms
    ensures Handle(s, sock, tokens).Next? && r in Handle(s, sock, tokens).state.rooms
    ensures Handle(s, sock, tokens).state.rooms[r] == Room(s.clients[sock], [sock], [], ("", ""), FilterList())
  {
  }

  function LineOf(room: Room, words: seq<string>): string {
    if GoodWords(room.filterList) then Mask(Joined(words), room.filterList) else ""
  }

  ghost predicate Continues(s: State, sock: int, tokens: seq<string>, r: int, room: Room, after: Room) {
    && after.owner == room.owner && after.filterList == room.filterList
    && after.history ==
         (if Speaks(s, sock, tokens, r) && sock in s.clients then room.history + [(s.clients[sock], LineOf(room, tokens))]
          else room.history)
    && after.pinned ==
         (if Pins(s, sock, tokens, r) && sock in s.clients then (s.clients[sock], LineOf(room, tokens[1..]))
          else if Unpins(s, sock, tokens, r) then ("", "") else room.pinned)
  }

  lemma RoomStaysInRoom(s: State, sock: int, tokens: seq<string>, r: int)
    requires Placed(s, sock) && LoggedOn(s, sock) && tokens != [] && NonEmpty(tokens) && r in s.rooms
    ensures var t := RoomCommand(s, sock, tokens).0;
      r in t.rooms && Continues(s, sock, tokens, r, s.rooms[r], t.rooms[r])
  {
  }

  lemma RoomStaysInLobby(s: State, sock: int, tokens: seq<string>, r: int)
    requires sock !in s.inRoom && tokens != [] && LobbyCommand(s, sock, tokens).Next?
    requires r in s.rooms && !Closes(s, sock, tokens, r)
    ensures var t := LobbyCommand(s, sock, tokens).state;
      && r in t.rooms
      && t.rooms[r] == (if Enters(s, sock, tokens, r) then s.rooms[r].(members := s.rooms[r].members + [sock]) else s.rooms[r])
  {
  }

  /** A room that stays keeps its owner and its filter. Its history grows at the end, by the line of a member who
      speaks, and the pin is what was pinned last. */
  lemma RoomStays(s: State, sock: int, tokens: seq<string>, r: int)
    requires Invariant(s) && NonEmpty(tokens) && Handle(s, sock, tokens).Next?
    requires r in s.rooms && !Closes(s, sock, tokens, r)
    ensures var t := Handle(s, sock, tokens).state;
      r in t.rooms && Continues(s, sock, tokens, r, s.rooms[r], t.rooms[r])
  {
    if sock in s.inRoom {
      MembersArePlaced(s, sock);
      if tokens != [] {
        RoomStaysInRoom(s, sock, tokens, r);
      }
    } else if tokens != [] {
      RoomStaysInLobby(s, sock, tokens, r);
    }
  }

  lemma MembersAfterRoomCommand(s: State, sock: int, tokens: seq<string>, r: int, c: int)
    requires Placed(s, sock) && LoggedOn(s, sock) && tokens != [] && NonEmpty(tokens) && r in s.rooms
    requires NoDuplicates(s.rooms[s.inRoom[sock]].members)
    ensures Listed(RoomCommand(s, sock, tokens).0, c, r) <==> Listed(s, c, r) && !(c == sock && Leaves(s, sock, tokens, r))
  {
    WithoutEffect(s.rooms[s.inRoom[sock]].members, sock);
  }

  /** A member is added by entering and removed by leaving. */
  lemma MembersAfter(s: State, sock: int, tokens: seq<string>, r: int, c: int)
    requires Invariant(s) && NonEmpty(tokens) && Handle(s, sock, tokens).Next?
    requires r in s.rooms && !Closes(s, sock, tokens, r)
    ensures Listed(Handle(s, sock, tokens).state, c, r) <==>
      (Listed(s, c, r) && !(c == sock && Leaves(s, sock, tokens, r))) || (c == sock && Enters(s, sock, tokens, r))
  {
    if sock in s.inRoom {
      MembersArePlaced(s, sock);
      InvariantIndex(s, sock, s.inRoom[sock]);
      if tokens != [] {
        MembersAfterRoomCommand(s, sock, tokens, r, c);
      }
    } else if tokens != [] {
      RoomStaysInLobby(s, sock, tokens, r);
    }
  }

  // ---- over runs ----

  /** What is to be known of a room number: who opened the room, if it is open, and the lines since then. */
  datatype Story = Story(opener: Option<string>, lines: seq<(string, string)>, pin: (string, string))

  /** How a command in state s goes on with the story of room r. */
  ghost function Told(s: State, sock: int, tokens: seq<string>, r: int, story: Story): Story {
    if Closes(s, sock, tokens, r) then Story(None, [], ("", ""))
    else if Enters(s, sock, tokens, r) && r !in s.rooms then Story(Some(s.clients[sock]), [], ("", ""))
    else if Speaks(s, sock, tokens, r) && sock in s.clients && GoodWords(FilterList()) then
      story.(lines := story.lines + [(s.clients[sock], Mask(Joined(tokens), FilterList()))])
    else if Pins(s, sock, tokens, r) && sock in s.clients && GoodWords(FilterList()) then
      story.(pin := (s.clients[sock], Mask(Joined(tokens[1..]), FilterList())))
    else if Unpins(s, sock, tokens, r) then story.(pin := ("", ""))
    else story
  }

  ghost function StoryOf(commands: seq<Command>, r: int): Story
    requires Words(commands) && Run(commands).Some?
  {
    if commands == [] then Story(None, [], ("", ""))
    else
      var front, last := commands[..|commands| - 1], commands[|commands| - 1];
      Told(Run(front).value, last.sock, last.tokens, r, StoryOf(front, r))
  }

  /** The room is as its story says. */
  ghost predicate AsTold(s: State, r: int, story: Story) {
    && (r in s.rooms <==> story.opener.Some?)
    && (r in s.rooms ==>
          && 1 <= r <= 100 && s.rooms[r].owner == story.opener.value
          && s.rooms[r].history == story.lines && s.rooms[r].pinned == story.pin
          && s.rooms[r].filterList == FilterList())
  }

  lemma SpeakersListed(s: State, sock: int, tokens: seq<string>, r: int)
    requires Invariant(s) && Mapped(s, sock, r)
    ensures r in s.rooms && LoggedOn(s, sock)
  {
    MembersArePlaced(s, sock);
  }

  lemma StoryGoesOn(s: State, sock: int, tokens: seq<string>, r: int, story: Story)
    requires Invariant(s) && NonEmpty(tokens) && Handle(s, sock, tokens).Next? && AsTold(s, r, story)
    ensures AsTold(Handle(s, sock, tokens).state, r, Told(s, sock, tokens, r, story))
  {
    FilterListGood();
    RoomsAfter(s, sock, tokens, r);
    if Mapped(s, sock, r) {
      SpeakersListed(s, sock, tokens, r);
    }
    if r in s.rooms && !Closes(s, sock, tokens, r) {
      RoomStays(s, sock, tokens, r);
    } else if r !in s.rooms && Enters(s, sock, tokens, r) {
      NewRoomAfter(s, sock, tokens, r);
    }
  }

  /** Main result on rooms, after any commands: a room exists exactly when someone opened it and its owner has not
      closed it since; its number is from 1 to 100; its owner is who opened it; its history is the masked lines of its
      members since then, in order; its pin is the last one set and not deleted since. */
  lemma {:induction false} RoomsByCommands(commands: seq<Command>, r: int)
    requires Words(commands) && Run(commands).Some?
    ensures AsTold(Run(commands).value, r, StoryOf(commands, r))
    decreases |commands|
  {
    if commands != [] {
      var front, last := commands[..|commands| - 1], commands[|commands| - 1];
      RunInvariant(front);
      RoomsByCommands(front, r);
      StoryGoesOn(Run(front).value, last.sock, last.tokens, r, StoryOf(front, r));
    }
  }

  // ---- what is shown and announced ----

  /** The ten lines shown are the last ones, or all if there are fewer. */
  lemma LastTenLines(history: seq<(string, string)>, k: nat)
    ensures |LastTen(history)| == if |history| < 10 then |history| else 10
    ensures k < |LastTen(history)| ==> LastTen(history)[k] == history[|history| - |LastTen(history)| + k]
  {
  }

  /** Notices to a list of sockets, and then an answer that is no such notice. */
  lemma NoticesOnce(members: seq<int>, sock: int, text: Text, answer: Output, c: int)
    requires NoDuplicates(members)
    ensures Copies(Broadcast(members, sock, text) + [answer], c, text)
         == (if c in members && c != sock then 1 else 0) + (if answer == Output(c, text) then 1 else 0)
  {
    BroadcastOnce(members, sock, text, c);
    var notices := Broadcast(members, sock, text);
    assert (notices + [answer])[..|notices|] == notices;
  }

  lemma EnterSends(s: State, sock: int, tokens: seq<string>, r: int)
    requires NonEmpty(tokens) && Enters(s, sock, tokens, r) && r in s.rooms
    ensures Handle(s, sock, tokens).Next? && sock in s.clients
    ensures Handle(s, sock, tokens).sent == Broadcast(s.rooms[r].members + [sock], sock, Entered(s.clients[sock]))
      + [Output(sock, RoomWelcome(r, s.rooms[r].owner, LastTen(s.rooms[r].history), s.rooms[r].pinned))]
  {
  }

  lemma EnteredOnce(s: State, sock: int, r: int)
    requires Invariant(s) && sock !in s.inRoom && r in s.rooms
    ensures NoDuplicates(s.rooms[r].members + [sock])
  {
    InvariantIndex(s, sock, r);
    assert !Mapped(s, sock, r);
  }

  /** Who enters is told the owner, the last ten lines and the pin; every other member gets one notice, if the room
      existed. */
  lemma EnterAnnounced(s: State, sock: int, tokens: seq<string>, r: int, c: int)
    requires Invariant(s) && NonEmpty(tokens) && Enters(s, sock, tokens, r) && r in s.rooms
    ensures Handle(s, sock, tokens).Next? && sock in s.clients
    ensures Copies(Handle(s, sock, tokens).sent, c, Entered(s.clients[sock]))
         == if c in s.rooms[r].members then 1 else 0
    ensures var sent, room := Handle(s, sock, tokens).sent, s.rooms[r];
      sent != [] && sent[|sent| - 1] == Output(sock, RoomWelcome(r, room.owner, LastTen(room.history), room.pinned))
  {
    var room := s.rooms[r];
    EnterSends(s, sock, tokens, r);
    EnteredOnce(s, sock, r);
    NoticesOnce(room.members + [sock], sock, Entered(s.clients[sock]),
                Output(sock, RoomWelcome(r, room.owner, LastTen(room.history), room.pinned)), c);
    InvariantIndex(s, sock, r);
    assert sock !in room.members by {
      assert !Mapped(s, sock, r);
    }
  }

  /** The others are told once who left. */
  lemma LeaveAnnounced(s: State, sock: int, tokens: seq<string>, r: int, c: int)
    requires Invariant(s) && Leaves(s, sock, tokens, r)
    ensures r in s.rooms && sock in s.clients && Handle(s, sock, tokens).Next?
    ensures Copies(Handle(s, sock, tokens).sent, c, Left(s.clients[sock]))
         == if c in s.rooms[r].members && c != sock then 1 else 0
  {
    MembersArePlaced(s, sock);
    InvariantIndex(s, sock, r);
    WithoutEffect(s.rooms[r].members, sock);
    NoticesOnce(Without(s.rooms[r].members, sock), sock, Left(s.clients[sock]), Output(sock, LobbyPrompt), c);
  }

  lemma CloseSends(s: State, sock: int, tokens: seq<string>, r: int)
    requires NonEmpty(tokens) && Closes(s, sock, tokens, r)
    ensures Handle(s, sock, tokens).Next?
    ensures Handle(s, sock, tokens).sent
         == Broadcast(s.rooms[r].members, sock, Closed(tokens[1])) + [Output(sock, Closed(tokens[1]))]
  {
  }

  /** All members and the owner are told once that the room is closed. */
  lemma CloseAnnounced(s: State, sock: int, tokens: seq<string>, r: int, c: int)
    requires Invariant(s) && NonEmpty(tokens) && Closes(s, sock, tokens, r)
    ensures Handle(s, sock, tokens).Next?
    ensures Copies(Handle(s, sock, tokens).sent, c, Closed(tokens[1]))
         == if c in s.rooms[r].members || c == sock then 1 else 0
  {
    InvariantIndex(s, sock, r);
    CloseSends(s, sock, tokens, r);
    NoticesOnce(s.rooms[r].members, sock, Closed(tokens[1]), Output(sock, Closed(tokens[1])), c);
  }

  /** What std::stoi makes of a sign, of a rest that is no digit, and of no digits at all. */
  lemma StoiSamples(a: string, b: string, c: string, d: string)
    requires a == "-37" && b == "+4x" && c == "x4" && d == "-"
    ensures Stoi(a) == Int(-37) && Stoi(b) == Int(4) && Stoi(c) == Invalid && Stoi(d) == Invalid
  {
    var digits := a[1..];
    assert digits == "37" && LeadingDigits(digits[2..]) == 0 && LeadingDigits(digits[1..]) == 1;
    assert digits[..2] == digits && digits[..1][..0] == "" && Number(digits[..1]) == 3;
    var rest := b[1..];
    assert rest == "4x" && LeadingDigits(rest[1..]) == 0 && rest[..1][..0] == "" && Number(rest[..1]) == 4;
    assert d[1..] == "";
  }

  // ---- words and lines ----

  /** Cutting a line at its blanks. */
  function Split(line: string): (words: seq<string>)
    ensures words != []
  {
    if line == "" then [""]
    else if line[0] == ' ' then [""] + Split(line[1..])
    else [[line[0]] + Split(line[1..])[0]] + Split(line[1..])[1..]
  }

  lemma {:induction false} SplitWord(word: string)
    requires ' ' !in word
    ensures Split(word) == [word]
    decreases |word|
  {
    if word != "" {
      SplitWord(word[1..]);
      assert [word[0]] + word[1..] == word;
    }
  }

  lemma {:induction false} SplitAppend(line: string, word: string)
    requires ' ' !in word
    ensures Split(line + " " + word) == Split(line) + [word]
    decreases |line|
  {
    var whole := line + " " + word;
    if line == "" {
      SplitWord(word);
      assert whole[1..] == word;
    } else {
      SplitAppend(line[1..], word);
      assert whole[1..] == line[1..] + " " + word;
    }
  }

  /** The words of a line are joined by one blank each: cutting the line at its blanks gives them back. */
  lemma {:induction false} JoinedSplits(tokens: seq<string>)
    requires tokens != [] && forall i :: 0 <= i < |tokens| ==> ' ' !in tokens[i]
    ensures Split(Joined(tokens)) == tokens
    decreases |tokens|
  {
    if |tokens| == 1 {
      SplitWord(tokens[0]);
    } else {
      JoinedSplits(tokens[..|tokens| - 1]);
      SplitAppend(Joined(tokens[..|tokens| - 1]), tokens[|tokens| - 1]);
    }
  }
}
