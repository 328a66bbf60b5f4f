/** The state of the chat server of homework2 and what each command does to it. A user is named by the
    user name, which stands for the pointer in the source. */
module ChatState {
  import opened Masking

  datatype User = User(name: string, password: string, status: string)

  datatype Room = Room(owner: string, members: seq<int>, history: seq<(string, string)>,
                       pinned: (string, string), filterList: seq<string>)

  datatype State = State(users: seq<User>, clients: map<int, string>, rooms: map<int, Room>,
                         loggedIn: set<string>, inRoom: map<int, int>)

  datatype Text =
    | Usage | UnknownCommand | LoginFirst | LogoutFirst | Registered | NameUsed | LoginFailed
    | Welcome(name: string) | Bye(name: string) | StatusSet(name: string, status: string) | BadStatus
    | Listing | Prompt | BadNumber | NoSuchRoom | NotOwner | NotInRoom | NoPin | Nothing | LobbyPrompt
    | RoomWelcome(room: int, owner: string, recent: seq<(string, string)>, pinned: (string, string))
    | Entered(name: string) | Left(name: string) | Closed(which: string)
    | Chat(name: string, message: string) | Pin(name: string, message: string)

  /** One call of send. */
  datatype Output = Output(socket: int, text: Text)

  /** The server ends: std::stoi throws out_of_range, which nothing catches, or a room command would follow a
      pointer to no user. */
  datatype Outcome = Next(state: State, sent: seq<Output>) | Crash

  // ---- reading a number ----

  datatype Parsed = Invalid | OutOfRange | Int(value: int)

  predicate IsDigit(c: char) {
    '0' <= c <= '9'
  }

  function LeadingDigits(s: string): (n: nat)
    ensures n <= |s| && forall i :: 0 <= i < n ==> IsDigit(s[i])
  {
    if s == "" || !IsDigit(s[0]) then 0 else 1 + LeadingDigits(s[1..])
  }

  function Number(digits: string): nat
    requires forall i :: 0 <= i < |digits| ==> IsDigit(digits[i])
  {
    if digits == "" then 0
    else
      assert IsDigit(digits[|digits| - 1]);
      Number(digits[..|digits| - 1]) * 10 + (digits[|digits| - 1] - '0') as int
  }

  /** std::stoi on a word: an optional sign, then the leading digits; the rest is ignored. */
  function Stoi(s: string): Parsed {
    var signed := s != "" && s[0] in "+-";
    var body := if signed then s[1..] else s;
    var n := LeadingDigits(body);
    if n == 0 then Invalid
    else
      var v: int := Number(body[..n]);
      var value: int := if signed && s[0] == '-' then -v else v;
      if -0x8000_0000 <= value < 0x8000_0000 then Int(value) else OutOfRange
  }

  // ---- users ----

  predicate IsRegistered(users: seq<User>, name: string) {
    exists i :: 0 <= i < |users| && users[i].name == name
  }

  predicate PasswordFits(users: seq<User>, name: string, password: string) {
    exists i :: 0 <= i < |users| && users[i].name == name && users[i].password == password
  }

  function WithStatus(users: seq<User>, name: string, status: string): (r: seq<User>)
    ensures |r| == |users|
    ensures forall i :: 0 <= i < |users| ==>
      r[i] == if users[i].name == name then users[i].(status := status) else users[i]
  {
    seq(|users|, i requires 0 <= i < |users| =>
      if users[i].name == name then users[i].(status := status) else users[i])
  }

  predicate LoggedOn(s: State, sock: int) {
    sock in s.clients && s.clients[sock] in s.loggedIn
  }

  // ---- lobby commands ----

  function Register(s: State, tokens: seq<string>): (State, Text) {
    if |tokens| != 3 then (s, Usage)
    else if IsRegistered(s.users, tokens[1]) then (s, NameUsed)
    else (s.(users := s.users + [User(tokens[1], tokens[2], "offline")]), Registered)
  }

  function Login(s: State, sock: int, tokens: seq<string>): (State, Text) {
    if |tokens| != 3 then (s, Usage)
    else if LoggedOn(s, sock) then (s, LogoutFirst)
    else if tokens[1] in s.loggedIn || !PasswordFits(s.users, tokens[1], tokens[2]) then (s, LoginFailed)
    else
      (s.(users := WithStatus(s.users, tokens[1], "online"), clients := s.clients[sock := tokens[1]],
          loggedIn := s.loggedIn + {tokens[1]}), Welcome(tokens[1]))
  }

  function Logout(s: State, sock: int, tokens: seq<string>): (State, Text) {
    if |tokens| != 1 then (s, Usage)
    else if !LoggedOn(s, sock) then (s, LoginFirst)
    else
      var name := s.clients[sock];
      (s.(users := WithStatus(s.users, name, "offline"), clients := s.clients - {sock},
          loggedIn := s.loggedIn - {name}), Bye(name))
  }

  function SetStatus(s: State, sock: int, tokens: seq<string>): (State, Text) {
    if |tokens| != 2 then (s, Usage)
    else if !LoggedOn(s, sock) then (s, LoginFirst)
    else if tokens[1] !in ["online", "offline", "busy"] then (s, BadStatus)
    else
      (s.(users := WithStatus(s.users, s.clients[sock], tokens[1])), StatusSet(s.clients[sock], tokens[1]))
  }

  /** whoami, list-user and list-chat-room only read. */
  function Query(s: State, sock: int, tokens: seq<string>): Text {
    if |tokens| != 1 then Usage else if !LoggedOn(s, sock) then LoginFirst else Listing
  }

  /** Everyone in the list but one. */
  function Broadcast(members: seq<int>, except: int, text: Text): seq<Output> {
    if members == [] then []
    else
      Broadcast(members[..|members| - 1], except, text)
      + (if members[|members| - 1] == except then [] else [Output(members[|members| - 1], text)])
  }

  function NewRoom(owner: string): Room {
    Room(owner, [], [], ("", ""), FilterList())
  }

  function LastTen(history: seq<(string, string)>): seq<(string, string)> {
    history[if |history| < 10 then 0 else |history| - 10..]
  }

  function EnterRoom(s: State, sock: int, tokens: seq<string>): Outcome {
    if |tokens| != 2 then Next(s, [Output(sock, Usage)])
    else if !LoggedOn(s, sock) then Next(s, [Output(sock, LoginFirst)])
    else
      match Stoi(tokens[1])
      case Invalid => Next(s, [Output(sock, BadNumber)])
      case OutOfRange => Crash
      case Int(n) =>
        if n < 1 || n > 100 then Next(s, [Output(sock, BadNumber)])
        else
          var existing := n in s.rooms;
          var name := s.clients[sock];
          var room := if existing then s.rooms[n] else NewRoom(name);
          var entered := room.(members := room.members + [sock]);
          Next(s.(rooms := s.rooms[n := entered], inRoom := s.inRoom[sock := n]),
               (if existing then Broadcast(entered.members, sock, Entered(name)) else [])
               + [Output(sock, RoomWelcome(n, room.owner, LastTen(room.history), room.pinned))])
  }

  function Members(members: seq<int>): set<int> {
    set i | 0 <= i < |members| :: members[i]
  }

  function CloseRoom(s: State, sock: int, tokens: seq<string>): Outcome {
    if |tokens| != 2 then Next(s, [Output(sock, Usage)])
    else if !LoggedOn(s, sock) then Next(s, [Output(sock, LoginFirst)])
    else
      match Stoi(tokens[1])
      case Invalid => Next(s, [Output(sock, NoSuchRoom)])
      case OutOfRange => Crash
      case Int(n) =>
        if n !in s.rooms then Next(s, [Output(sock, NoSuchRoom)])
        else if s.rooms[n].owner != s.clients[sock] then Next(s, [Output(sock, NotOwner)])
        else
          Next(s.(rooms := s.rooms - {n}, inRoom := s.inRoom - Members(s.rooms[n].members)),
               Broadcast(s.rooms[n].members, sock, Closed(tokens[1])) + [Output(sock, Closed(tokens[1]))])
  }

  // ---- room commands ----

  /** The socket is in a room that exists, and it and all members of the room, whose users /list-user looks up,
      belong to users. */
  predicate Placed(s: State, sock: int) {
    sock in s.inRoom && s.inRoom[sock] in s.rooms && sock in s.clients
    && GoodWords(s.rooms[s.inRoom[sock]].filterList)
    && forall c :: c in s.rooms[s.inRoom[sock]].members ==> c in s.clients
  }

  /** The words with single spaces between them. */
  function Joined(tokens: seq<string>): string {
    if tokens == [] then ""
    else if |tokens| == 1 then tokens[0]
    else Joined(tokens[..|tokens| - 1]) + " " + tokens[|tokens| - 1]
  }

  function WithRoom(s: State, sock: int, room: Room): State
    requires Placed(s, sock)
  {
    s.(rooms := s.rooms[s.inRoom[sock] := room])
  }

  function SendMessage(s: State, sock: int, tokens: seq<string>): (State, seq<Output>)
    requires Placed(s, sock)
  {
    var room, name := s.rooms[s.inRoom[sock]], s.clients[sock];
    var message := Mask(Joined(tokens), room.filterList);
    (WithRoom(s, sock, room.(history := room.history + [(name, message)])),
     Broadcast(room.members, sock, Chat(name, message)) + [Output(sock, Chat(name, message))])
  }

  function SetPin(s: State, sock: int, tokens: seq<string>): (State, seq<Output>)
    requires Placed(s, sock)
  {
    if |tokens| < 2 then (s, [Output(sock, Usage)])
    else if !LoggedOn(s, sock) then (s, [Output(sock, LoginFirst)])
    else
      var room, name := s.rooms[s.inRoom[sock]], s.clients[sock];
      var message := Mask(Joined(tokens[1..]), room.filterList);
      (WithRoom(s, sock, room.(pinned := (name, message))),
       Broadcast(room.members, sock, Pin(name, message)) + [Output(sock, Pin(name, message))])
  }

  function DeletePin(s: State, sock: int, tokens: seq<string>): (State, seq<Output>)
    requires Placed(s, sock)
  {
    var room := s.rooms[s.inRoom[sock]];
    if |tokens| != 1 then (s, [Output(sock, Usage)])
    else if !LoggedOn(s, sock) then (s, [Output(sock, LoginFirst)])
    else if room.pinned.0 == "" then (s, [Output(sock, NoPin)])
    else (WithRoom(s, sock, room.(pinned := ("", ""))), [Output(sock, Nothing)])
  }

  /** The list without the first occurrence of x. */
  function Without(xs: seq<int>, x: int): seq<int> {
    if xs == [] then [] else if xs[0] == x then xs[1..] else [xs[0]] + Without(xs[1..], x)
  }

  function LeaveRoom(s: State, sock: int, tokens: seq<string>): (State, seq<Output>)
    requires Placed(s, sock)
  {
    if |tokens| != 1 then (s, [Output(sock, Usage)])
    else if !LoggedOn(s, sock) then (s, [Output(sock, LoginFirst)])
    else
      var room := s.rooms[s.inRoom[sock]];
      var rest := Without(room.members, sock);
      (WithRoom(s, sock, room.(members := rest)).(inRoom := s.inRoom - {sock}),
       Broadcast(rest, sock, Left(s.clients[sock])) + [Output(sock, LobbyPrompt)])
  }

  // ---- handleCommand ----

  function RoomCommand(s: State, sock: int, tokens: seq<string>): (State, seq<Output>)
    requires Placed(s, sock) && tokens != [] && tokens[0] != ""
  {
    if tokens[0] == "/pin" then SetPin(s, sock, tokens)
    else if tokens[0] == "/delete-pin" then DeletePin(s, sock, tokens)
    else if tokens[0] == "/exit-chat-room" then LeaveRoom(s, sock, tokens)
    else if tokens[0] == "/list-user" then (s, [Output(sock, Query(s, sock, tokens))])
    else if tokens[0][0] == '/' then (s, [Output(sock, UnknownCommand)])
    else SendMessage(s, sock, tokens)
  }

  function Answer(sock: int, r: (State, Text)): Outcome {
    Next(r.0, [Output(sock, r.1)])
  }

  function LobbyCommand(s: State, sock: int, tokens: seq<string>): Outcome
    requires tokens != []
  {
    match tokens[0]
    case "register" => Answer(sock, Register(s, tokens))
    case "login" => Answer(sock, Login(s, sock, tokens))
    case "logout" => Answer(sock, Logout(s, sock, tokens))
    case "exit" => if |tokens| == 1 && !LoggedOn(s, sock) then Next(s, []) else Answer(sock, Logout(s, sock, tokens))
    case "whoami" => Next(s, [Output(sock, Query(s, sock, tokens))])
    case "set-status" => Answer(sock, SetStatus(s, sock, tokens))
    case "list-user" => Next(s, [Output(sock, Query(s, sock, tokens))])
    case "enter-chat-room" => EnterRoom(s, sock, tokens)
    case "list-chat-room" => Next(s, [Output(sock, Query(s, sock, tokens))])
    case "close-chat-room" => CloseRoom(s, sock, tokens)
    case _ => Next(s, [Output(sock, UnknownCommand)])
  }

  function Handle(s: State, sock: int, tokens: seq<string>): Outcome
    requires forall i :: 0 <= i < |tokens| ==> tokens[i] != ""
  {
    if tokens == [] then Next(s, [Output(sock, Prompt)])
    else if sock in s.inRoom then
      if Placed(s, sock) then
        var (t, sent) := RoomCommand(s, sock, tokens);
        Next(t, sent)
      else Crash
    else LobbyCommand(s, sock, tokens)
  }
}
