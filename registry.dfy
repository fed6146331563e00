/**
 * The server's table of active rooms, keyed by room code, and the socket
 * handlers as they reach a room through it. A handler other than join-room
 * finds its room under the code the socket stored when it created or joined
 * one (absent when it never did or has left); join-room looks the typed code
 * up after normalising it.
 */
module Registry {
  import opened Wrappers
  import opened Session
  import opened RoomCodes
  import Rooms

  class Registry {
    var rooms: map<string, Rooms.Room>

    /** Every room is stored under its own code, which is a generated room code, and is valid. */
    ghost predicate Valid()
      reads this, rooms.Values
    {
      forall c | c in rooms :: IsRoomCode(c) && rooms[c].code == c && rooms[c].Valid()
    }

    /** The states of all rooms, by code. */
    ghost function States(): map<string, RoomState>
      reads this, rooms.Values
    {
      map c | c in rooms :: rooms[c].State()
    }

    constructor ()
      ensures Valid() && rooms == map[]
    {
      rooms := map[];
    }

    /**
     * create-room, given a fresh generated code (the server draws codes until
     * it finds one not in use): the new room is stored under it, and no
     * other room changes.
     */
    method CreateRoom(code: string, socket: SocketId, name: Option<string>, avatar: Option<string>)
      returns (room: Rooms.Room)
      requires Valid() && IsRoomCode(code) && code !in rooms
      modifies this
      ensures Valid() && fresh(room)
      ensures rooms == old(rooms)[code := room]
      ensures room.State() == NewRoom(code, socket, name, avatar)
      ensures States() == old(States())[code := room.State()]
    {
      ghost var before := States();
      room := new Rooms.Room(code, socket, name, avatar);
      assert States() == before by {
        forall c | c in rooms
          ensures rooms[c].State() == before[c]
        {
        }
      }
      Insert(code, room);
    }

    /** Stores a valid room under its own, unused code. */
    method Insert(code: string, room: Rooms.Room)
      requires Valid() && IsRoomCode(code) && code !in rooms
      requires room.code == code && room.Valid()
      modifies this
      ensures Valid()
      ensures rooms == old(rooms)[code := room]
      ensures States() == old(States())[code := room.State()]
    {
      ghost var before := States();
      rooms := rooms[code := room];
      forall c | c in rooms
        ensures IsRoomCode(c) && rooms[c].code == c && rooms[c].Valid()
        ensures States()[c] == before[code := room.State()][c]
      {
        if c != code {
          assert rooms[c] == old(rooms)[c];
        }
      }
      assert States().Keys == before[code := room.State()].Keys;
    }

    /** The room stored under a socket's code, if the socket has one and the room still exists. */
    function Lookup(roomCode: Option<string>): (r: Option<Rooms.Room>)
      reads this
      ensures r.Some? <==> roomCode.Some? && roomCode.value in rooms
      ensures r.Some? ==> r.value == rooms[roomCode.value]
    {
      if roomCode.Some? && roomCode.value in rooms then Some(rooms[roomCode.value]) else None
    }

    /**
     * join-room: an unknown code is refused before anything else; a known
     * one is joined as Room.Join does. No other room changes.
     */
    method JoinRoom(typed: string, socket: SocketId, name: Option<string>, avatar: Option<string>)
      returns (reply: Reply)
      requires Valid()
      modifies rooms.Values
      ensures Valid() && rooms == old(rooms)
      ensures var code := NormalizeCode(typed);
        if code in rooms then
          var step := Session.Join(old(States())[code], socket, name, avatar);
          States() == old(States())[code := step.state] && reply == step.reply
        else
          reply == Rejected(RoomNotFound) && States() == old(States())
    {
      var code := NormalizeCode(typed);
      if code !in rooms {
        return Rejected(RoomNotFound);
      }
      reply := JoinAt(code, socket, name, avatar);
    }

    /** join-room on the room stored under code. */
    method JoinAt(code: string, socket: SocketId, name: Option<string>, avatar: Option<string>)
      returns (reply: Reply)
      requires Valid() && code in rooms
      modifies rooms.Values
      ensures Valid() && rooms == old(rooms)
      ensures var step := Session.Join(old(States())[code], socket, name, avatar);
        States() == old(States())[code := step.state] && reply == step.reply
    {
      var room := rooms[code];
      assert room.State() == old(States())[code];
      reply := room.Join(socket, name, avatar);
      Unaffected(code);
    }

    /** set-secret from the socket holding seat p of the room under roomCode. */
    method SetSecret(roomCode: Option<string>, p: Player, secret: string) returns (reply: Reply)
      requires Valid()
      modifies rooms.Values
      ensures Valid() && rooms == old(rooms)
      ensures Lookup(roomCode).None? ==> reply == Rejected(RoomNotFound) && States() == old(States())
      ensures Lookup(roomCode).Some? ==>
        States() == old(States())[roomCode.value := Session.SetSecret(old(States())[roomCode.value], p, secret).state]
        && reply == Session.SetSecret(old(States())[roomCode.value], p, secret).reply
    {
      var found := Lookup(roomCode);
      if found.None? {
        return Rejected(RoomNotFound);
      }
      reply := found.value.SetSecret(p, secret);
      Unaffected(roomCode.value);
    }

    /** submit-guess from the socket holding seat p; a guess to be scored needs the opponent's secret. */
    method SubmitGuess(roomCode: Option<string>, p: Player, guess: string) returns (reply: Reply)
      requires Valid()
      requires Lookup(roomCode).Some? ==> var s := States()[roomCode.value];
        !s.gameOver && p == s.currentPlayer ==> s.secrets.Get(Opponent(p)).Some?
      modifies rooms.Values
      ensures Valid() && rooms == old(rooms)
      ensures Lookup(roomCode).None? ==> reply == Rejected(RoomNotFound) && States() == old(States())
      ensures Lookup(roomCode).Some? ==>
        States() == old(States())[roomCode.value := Session.SubmitGuess(old(States())[roomCode.value], p, guess).state]
        && reply == Session.SubmitGuess(old(States())[roomCode.value], p, guess).reply
    {
      var found := Lookup(roomCode);
      if found.None? {
        return Rejected(RoomNotFound);
      }
      reply := found.value.SubmitGuess(p, guess);
      Unaffected(roomCode.value);
    }

    /** play-again from the socket holding seat p. */
    method PlayAgain(roomCode: Option<string>, p: Player) returns (reply: Reply)
      requires Valid()
      modifies rooms.Values
      ensures Valid() && rooms == old(rooms)
      ensures Lookup(roomCode).None? ==> reply == Rejected(RoomNotFound) && States() == old(States())
      ensures Lookup(roomCode).Some? ==>
        States() == old(States())[roomCode.value := Session.PlayAgain(old(States())[roomCode.value], p).state]
        && reply == Session.PlayAgain(old(States())[roomCode.value], p).reply
    {
      var found := Lookup(roomCode);
      if found.None? {
        return Rejected(RoomNotFound);
      }
      reply := found.value.PlayAgain(p);
      Unaffected(roomCode.value);
    }

    /**
     * exit-room: without a (non-empty) code nothing happens; otherwise the
     * socket leaves the room under it, if that room exists, and a room left
     * empty is deleted from the table.
     */
    method ExitRoom(roomCode: Option<string>, socket: SocketId) returns (deleted: bool)
      requires Valid()
      modifies this, rooms.Values
      ensures Valid()
      ensures !Truthy(roomCode) || roomCode.value !in old(rooms) ==>
        !deleted && rooms == old(rooms) && States() == old(States())
      ensures Truthy(roomCode) && roomCode.value in old(rooms) ==>
        var code, left := roomCode.value, Session.Leave(old(States())[roomCode.value], socket);
        && deleted == (left.players == [])
        && rooms == (if deleted then old(rooms) - {code} else old(rooms))
        && States() == (if deleted then old(States()) - {code} else old(States())[code := left])
    {
      deleted := false;
      if !Truthy(roomCode) {
        return;
      }
      var code := roomCode.value;
      if code !in rooms {
        return;
      }
      var room := rooms[code];
      ghost var left := Session.Leave(room.State(), socket);
      assert left == Session.Leave(old(States())[code], socket);
      room.Leave(socket);
      Unaffected(code);
      assert States() == old(States())[code := left];
      if |room.players| == 0 {
        Delete(code);
        deleted := true;
        UpdateThenRemove(old(States()), code, left);
      }
    }

    /** Removes the room under code from the table. */
    method Delete(code: string)
      requires Valid()
      modifies this
      ensures Valid()
      ensures rooms == old(rooms) - {code}
      ensures States() == old(States()) - {code}
    {
      rooms := rooms - {code};
      assert States() == old(States()) - {code} by {
        forall c | c in rooms
          ensures States()[c] == old(States())[c]
        {
        }
      }
    }

    /**
     * A handler that changed only the room under code left every other room
     * as it was: rooms are stored under their own codes, so no two codes
     * share a room.
     */
    twostate lemma Unaffected(code: string)
      requires old(Valid()) && code in old(rooms) && rooms == old(rooms)
      requires forall c | c in rooms && c != code :: unchanged(rooms[c])
      requires rooms[code].Valid()
      ensures Valid()
      ensures States() == old(States())[code := rooms[code].State()]
    {
      forall c | c in rooms && c != code
        ensures rooms[c].State() == old(rooms[c].State()) && rooms[c].Valid()
      {
        assert unchanged(rooms[c]);
      }
      assert States() == old(States())[code := rooms[code].State()] by {
        forall c | c in rooms
          ensures States()[c] == old(States())[code := rooms[code].State()][c]
        {
        }
      }
    }
  }

  lemma UpdateThenRemove<K, V>(m: map<K, V>, k: K, v: V)
    ensures m[k := v] - {k} == m - {k}
  {
  }
}
