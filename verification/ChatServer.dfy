/** The class Server of homework2/server.cpp: its methods, command by command, compute the functions of
    ChatState. `log` stands for the calls of send. */
module ChatServer {
  import opened Masking
  import opened ChatState
  import opened Chat

  class Server {
    var registeredUsers: seq<User>
    var clients: map<int, string>
    var chatRooms: map<int, Room>
    var loggedInUsers: set<string>
    var clientInChatRoom: map<int, int>
    var log: seq<Output>

    function State(): State
      reads this`registeredUsers, this`clients, this`chatRooms, this`loggedInUsers, this`clientInChatRoom
    {
      ChatState.State.State(registeredUsers, clients, chatRooms, loggedInUsers, clientInChatRoom)
    }

    constructor ()
      ensures State() == Empty() && log == []
    {
      registeredUsers, clients, chatRooms, loggedInUsers, clientInChatRoom, log := [], map[], map[], {}, map[], [];
    }

    method Send(sock: int, text: Text)
      modifies this`log
      ensures log == old(log) + [Output(sock, text)]
    {
      log := log + [Output(sock, text)];
    }

    method SendToOthers(members: seq<int>, except: int, text: Text)
      modifies this`log
      ensures log == old(log) + Broadcast(members, except, text)
    {
      for i := 0 to |members|
        invariant log == old(log) + Broadcast(members[..i], except, text)
      {
        assert members[..i + 1][..i] == members[..i];
        if members[i] == except {
          continue;
        }
        Send(members[i], text);
      }
      assert members[..|members|] == members;
    }

    method RegisterUser(tokens: seq<string>) returns (response: Text)
      modifies this`registeredUsers
      ensures (State(), response) == Register(old(State()), tokens)
    {
      if |tokens| != 3 {
        return Usage;
      }
      for i := 0 to |registeredUsers|
        invariant State() == old(State())
        invariant forall j :: 0 <= j < i ==> registeredUsers[j].name != tokens[1]
      {
        if registeredUsers[i].name == tokens[1] {
          return NameUsed;
        }
      }
      registeredUsers := registeredUsers + [User(tokens[1], tokens[2], "offline")];
      return Registered;
    }

    /** Writes a status through the user pointer. */
    method ChangeStatus(name: string, status: string)
      modifies this`registeredUsers
      ensures registeredUsers == WithStatus(old(registeredUsers), name, status)
    {
      for i := 0 to |registeredUsers|
        invariant |registeredUsers| == |old(registeredUsers)|
        invariant registeredUsers[..i] == WithStatus(old(registeredUsers), name, status)[..i]
        invariant registeredUsers[i..] == old(registeredUsers)[i..]
      {
        assert registeredUsers[i] == old(registeredUsers)[i];
        if registeredUsers[i].name == name {
          registeredUsers := registeredUsers[i := registeredUsers[i].(status := status)];
        }
      }
    }

    method LoginUser(tokens: seq<string>, sock: int) returns (response: Text)
      modifies this`registeredUsers, this`clients, this`loggedInUsers
      ensures (State(), response) == Login(old(State()), sock, tokens)
    {
      if |tokens| != 3 {
        return Usage;
      }
      if sock in clients && clients[sock] in loggedInUsers {
        return LogoutFirst;
      }
      if tokens[1] in loggedInUsers {
        return LoginFailed;
      }
      for i := 0 to |registeredUsers|
        invariant State() == old(State())
        invariant forall j :: 0 <= j < i ==> registeredUsers[j].name != tokens[1] || registeredUsers[j].password != tokens[2]
      {
        var user := registeredUsers[i];
        if user.name == tokens[1] && user.password == tokens[2] {
          clients := clients[sock := user.name];
          ChangeStatus(user.name, "online");
          loggedInUsers := loggedInUsers + {tokens[1]};
          return Welcome(tokens[1]);
        }
      }
      return LoginFailed;
    }

    method LogoutUser(tokens: seq<string>, sock: int) returns (response: Text)
      modifies this`registeredUsers, this`clients, this`loggedInUsers
      ensures (State(), response) == Logout(old(State()), sock, tokens)
    {
      if |tokens| != 1 {
        return Usage;
      }
      if sock !in clients || clients[sock] !in loggedInUsers {
        return LoginFirst;
      }
      var name := clients[sock];
      loggedInUsers := loggedInUsers - {name};
      ChangeStatus(name, "offline");
      clients := clients - {sock};
      return Bye(name);
    }

    method SetClientStatus(tokens: seq<string>, sock: int) returns (response: Text)
      modifies this`registeredUsers
      ensures (State(), response) == SetStatus(old(State()), sock, tokens)
    {
      if |tokens| != 2 {
        return Usage;
      }
      if sock !in clients || clients[sock] !in loggedInUsers {
        return LoginFirst;
      }
      var status := tokens[1];
      if status != "online" && status != "offline" && status != "busy" {
        return BadStatus;
      }
      ChangeStatus(clients[sock], status);
      return StatusSet(clients[sock], status);
    }

    /** Sends its broadcast itself; the response is sent by the caller. */
    method EnterChatRoom(tokens: seq<string>, sock: int) returns (crashed: bool, response: Text)
      modifies this`chatRooms, this`clientInChatRoom, this`log
      ensures Answers(EnterRoom(old(State()), sock, tokens), crashed, State(), old(log), log, sock, response)
    {
      if |tokens| != 2 {
        return false, Usage;
      }
      if sock !in clients || clients[sock] !in loggedInUsers {
        return false, LoginFirst;
      }
      var parsed := Stoi(tokens[1]);
      if parsed.Invalid? {
        return false, BadNumber;
      }
      if parsed.OutOfRange? {
        return true, Nothing;
      }
      var n, name := parsed.value, clients[sock];
      if n < 1 || n > 100 {
        return false, BadNumber;
      }
      if n !in chatRooms {
        var room := NewRoom(name);
        chatRooms := chatRooms[n := room.(members := room.members + [sock])];
        clientInChatRoom := clientInChatRoom[sock := n];
        return false, RoomWelcome(n, name, [], ("", ""));
      }
      var room := chatRooms[n];
      chatRooms := chatRooms[n := room.(members := room.members + [sock])];
      clientInChatRoom := clientInChatRoom[sock := n];
      SendToOthers(chatRooms[n].members, sock, Entered(name));
      return false, RoomWelcome(n, room.owner, LastTen(room.history), room.pinned);
    }

    /** Takes every member out of the map and tells all but one. */
    method EvictAll(members: seq<int>, sock: int, text: Text)
      modifies this`clientInChatRoom, this`log
      ensures clientInChatRoom == old(clientInChatRoom) - Members(members)
      ensures log == old(log) + Broadcast(members, sock, text)
    {
      for i := 0 to |members|
        invariant clientInChatRoom == old(clientInChatRoom) - Members(members[..i])
        invariant log == old(log) + Broadcast(members[..i], sock, text)
      {
        assert members[..i + 1][..i] == members[..i];
        assert Members(members[..i + 1]) == Members(members[..i]) + {members[i]};
        clientInChatRoom := clientInChatRoom - {members[i]};
        if members[i] == sock {
          continue;
        }
        Send(members[i], text);
      }
      assert members[..|members|] == members;
    }

    method CloseChatRoom(tokens: seq<string>, sock: int) returns (crashed: bool, response: Text)
      modifies this`chatRooms, this`clientInChatRoom, this`log
      ensures Answers(CloseRoom(old(State()), sock, tokens), crashed, State(), old(log), log, sock, response)
    {
      if |tokens| != 2 {
        return false, Usage;
      }
      if sock !in clients || clients[sock] !in loggedInUsers {
        return false, LoginFirst;
      }
      var parsed := Stoi(tokens[1]);
      if parsed.Invalid? {
        return false, NoSuchRoom;
      }
      if parsed.OutOfRange? {
        return true, Nothing;
      }
      var n := parsed.value;
      if n !in chatRooms {
        return false, NoSuchRoom;
      }
      if chatRooms[n].owner != clients[sock] {
        return false, NotOwner;
      }
      EvictAll(chatRooms[n].members, sock, Closed(tokens[1]));
      SentThenAnswered(old(log), Broadcast(chatRooms[n].members, sock, Closed(tokens[1])), Output(sock, Closed(tokens[1])));
      chatRooms := chatRooms - {n};
      return false, Closed(tokens[1]);
    }

    method JoinTokens(tokens: seq<string>) returns (message: string)
      requires tokens != []
      ensures message == Joined(tokens)
    {
      message := "";
      for i := 0 to |tokens|
        invariant i == 0 ==> message == ""
        invariant i > 0 ==> message == Joined(tokens[..i]) + " "
      {
        assert tokens[..i + 1][..i] == tokens[..i];
        message := message + tokens[i] + " ";
      }
      assert tokens[..|tokens|] == tokens;
      message := message[..|message| - 1];
    }

    method SendMessage(tokens: seq<string>, sock: int) returns (response: Text)
      requires Placed(State(), sock) && tokens != []
      modifies this`chatRooms, this`log
      ensures (State(), log + [Output(sock, response)])
           == var (t, sent) := ChatState.SendMessage(old(State()), sock, tokens); (t, old(log) + sent)
    {
      var number, name := clientInChatRoom[sock], clients[sock];
      var room := chatRooms[number];
      var message := JoinTokens(tokens);
      message := MaskMessage(message, room.filterList);
      chatRooms := chatRooms[number := room.(history := room.history + [(name, message)])];
      SendToOthers(room.members, sock, Text.Chat(name, message));
      SentThenAnswered(old(log), Broadcast(room.members, sock, Text.Chat(name, message)), Output(sock, Text.Chat(name, message)));
      return Text.Chat(name, message);
    }

    method SetPinMessage(tokens: seq<string>, sock: int) returns (response: Text)
      requires Placed(State(), sock)
      modifies this`chatRooms, this`log
      ensures (State(), log + [Output(sock, response)])
           == var (t, sent) := SetPin(old(State()), sock, tokens); (t, old(log) + sent)
    {
      if |tokens| < 2 {
        return Usage;
      }
      if sock !in clients || clients[sock] !in loggedInUsers {
        return LoginFirst;
      }
      var number, name := clientInChatRoom[sock], clients[sock];
      var room := chatRooms[number];
      var message := JoinTokens(tokens[1..]);
      message := MaskMessage(message, room.filterList);
      chatRooms := chatRooms[number := room.(pinned := (name, message))];
      SendToOthers(room.members, sock, Pin(name, message));
      SentThenAnswered(old(log), Broadcast(room.members, sock, Pin(name, message)), Output(sock, Pin(name, message)));
      return Pin(name, message);
    }

    method DeletePinMessage(tokens: seq<string>, sock: int) returns (response: Text)
      requires Placed(State(), sock)
      modifies this`chatRooms
      ensures (State(), [Output(sock, response)]) == DeletePin(old(State()), sock, tokens)
    {
      if |tokens| != 1 {
        return Usage;
      }
      if sock !in clients || clients[sock] !in loggedInUsers {
        return LoginFirst;
      }
      var number := clientInChatRoom[sock];
      if chatRooms[number].pinned.0 == "" {
        return NoPin;
      }
      chatRooms := chatRooms[number := chatRooms[number].(pinned := ("", ""))];
      return Nothing;
    }

    /** Erases the first entry that names the socket. */
    method EraseMember(members: seq<int>, sock: int) returns (rest: seq<int>)
      ensures rest == Without(members, sock)
    {
      rest := members;
      for i := 0 to |members|
        invariant rest == members && Without(members, sock) == members[..i] + Without(members[i..], sock)
      {
        if members[i] == sock {
          rest := members[..i] + members[i + 1..];
          assert members[i..][1..] == members[i + 1..];
          return;
        }
        assert members[i..][1..] == members[i + 1..];
        assert members[..i + 1] == members[..i] + [members[i]];
      }
    }

    method ExitChatRoom(tokens: seq<string>, sock: int) returns (response: Text)
      requires Placed(State(), sock)
      modifies this`chatRooms, this`clientInChatRoom, this`log
      ensures (State(), log + [Output(sock, response)])
           == var (t, sent) := LeaveRoom(old(State()), sock, tokens); (t, old(log) + sent)
    {
      if |tokens| != 1 {
        return Usage;
      }
      if sock !in clients || clients[sock] !in loggedInUsers {
        return LoginFirst;
      }
      var number := clientInChatRoom[sock];
      var rest := EraseMember(chatRooms[number].members, sock);
      chatRooms := chatRooms[number := chatRooms[number].(members := rest)];
      SendToOthers(rest, sock, Left(clients[sock]));
      SentThenAnswered(old(log), Broadcast(rest, sock, Left(clients[sock])), Output(sock, LobbyPrompt));
      clientInChatRoom := clientInChatRoom - {sock};
      return LobbyPrompt;
    }

    /** Commands of a socket inside a room. */
    method HandleInRoom(sock: int, tokens: seq<string>)
      requires Placed(State(), sock) && tokens != [] && tokens[0] != ""
      modifies this
      ensures (State(), log) == var (t, sent) := RoomCommand(old(State()), sock, tokens); (t, old(log) + sent)
    {
      var response;
      if tokens[0] == "/pin" {
        response := SetPinMessage(tokens, sock);
      } else if tokens[0] == "/delete-pin" {
        response := DeletePinMessage(tokens, sock);
      } else if tokens[0] == "/exit-chat-room" {
        response := ExitChatRoom(tokens, sock);
      } else if tokens[0] == "/list-user" {
        response := Query(State(), sock, tokens);
      } else if tokens[0][0] == '/' {
        response := UnknownCommand;
      } else {
        response := SendMessage(tokens, sock);
      }
      Send(sock, response);
    }

    /** Commands of a socket outside all rooms. */
    method HandleInLobby(sock: int, tokens: seq<string>) returns (crashed: bool)
      requires tokens != []
      modifies this
      ensures Handled(LobbyCommand(old(State()), sock, tokens), crashed, State(), old(log), log)
    {
      crashed := false;
      var response;
      match tokens[0] {
        case "register" => response := RegisterUser(tokens);
        case "login" => response := LoginUser(tokens, sock);
        case "logout" => response := LogoutUser(tokens, sock);
        case "exit" =>
          if |tokens| == 1 && !(sock in clients && clients[sock] in loggedInUsers) {
            return;
          }
          response := LogoutUser(tokens, sock);
        case "whoami" => response := Query(State(), sock, tokens);
        case "set-status" => response := SetClientStatus(tokens, sock);
        case "list-user" => response := Query(State(), sock, tokens);
        case "enter-chat-room" => crashed, response := EnterChatRoom(tokens, sock);
        case "list-chat-room" => response := Query(State(), sock, tokens);
        case "close-chat-room" => crashed, response := CloseChatRoom(tokens, sock);
        case _ => response := UnknownCommand;
      }
      if !crashed {
        Send(sock, response);
      }
    }

    /** handleCommand: routes by whether the socket is in a room. */
    method HandleCommand(sock: int, tokens: seq<string>) returns (crashed: bool)
      requires Invariant(State()) && forall i :: 0 <= i < |tokens| ==> tokens[i] != ""
      modifies this
      ensures Handled(Handle(old(State()), sock, tokens), crashed, State(), old(log), log)
      ensures !crashed ==> Invariant(State())
    {
      HandleKeeps(State(), sock, tokens);
      if sock in clientInChatRoom {
        MembersArePlaced(State(), sock);
      }
      crashed := false;
      if tokens == [] {
        Send(sock, Prompt);
      } else if sock in clientInChatRoom {
        HandleInRoom(sock, tokens);
      } else {
        crashed := HandleInLobby(sock, tokens);
      }
    }
  }

  lemma SentThenAnswered(before: seq<Output>, sent: seq<Output>, answer: Output)
    ensures before + sent + [answer] == before + (sent + [answer])
  {
  }

  ghost predicate Handled(outcome: Outcome, crashed: bool, after: State, logBefore: seq<Output>, logAfter: seq<Output>) {
    match outcome
    case Crash => crashed
    case Next(t, sent) => !crashed && after == t && logAfter == logBefore + sent
  }

  /** The method did what the outcome says, except that its own response is still to be sent. */
  ghost predicate Answers(outcome: Outcome, crashed: bool, after: State, logBefore: seq<Output>, logAfter: seq<Output>,
                          sock: int, response: Text)
  {
    match outcome
    case Crash => crashed
    case Next(t, sent) => !crashed && after == t && logAfter + [Output(sock, response)] == logBefore + sent
  }
}
