/**
 The local user registry: a list of registered players and the player
 currently signed in, each under its own storage key. Names are matched
 without regard to (ASCII) letter case; the id and creation time of a new
 player come from the clock and are parameters.
 */
module Users {
  import opened GameTypes
  import Text

  /** The signed-in player in memory, its durable copy, and the durable registry. */
  datatype UserStore = UserStore(current: Option<User>, currentSlot: Slot<User>, registry: Slot<seq<User>>)

  /** A registration attempt: the store afterwards and the player it returned, if any. */
  datatype Registration = Registration(store: UserStore, user: Option<User>)

  /** The store when the page opens: the saved player, if one was saved readably, is signed in. */
  function MountUsers(currentSlot: Slot<User>, registry: Slot<seq<User>>): (r: UserStore)
    ensures r.currentSlot == currentSlot && r.registry == registry
    ensures r.current.Some? <==> currentSlot.Stored?
    ensures r.current.Some? ==> r.current.value == currentSlot.value
  {
    UserStore(if currentSlot.Stored? then Some(currentSlot.value) else None, currentSlot, registry)
  }

  /** `u.username.toLowerCase() === key`. */
  predicate Matches(u: User, key: string) {
    Text.ToLower(u.username) == key
  }

  /** `users.find(...)` by position: the first player whose lower-cased name is `key`. */
  function FindUser(users: seq<User>, key: string): (r: Option<nat>)
    ensures r.None? <==> forall j :: 0 <= j < |users| ==> !Matches(users[j], key)
    ensures r.Some? ==> r.value < |users| && Matches(users[r.value], key)
    ensures r.Some? ==> forall j :: 0 <= j < r.value ==> !Matches(users[j], key)
  {
    if users == [] then None
    else if Matches(users[0], key) then Some(0)
    else
      var rest := FindUser(users[1..], key);
      assert forall j :: 1 <= j < |users| ==> users[j] == users[1..][j - 1];
      if rest.None? then None else Some(rest.value + 1)
  }

  /** The first match is unaffected by appending, and an appended match is found when there was none. */
  lemma FindUserAppend(users: seq<User>, u: User, key: string)
    ensures FindUser(users, key).Some? ==> FindUser(users + [u], key) == FindUser(users, key)
    ensures FindUser(users, key).None? && Matches(u, key) ==> FindUser(users + [u], key) == Some(|users|)
  {
    var all := users + [u];
    assert forall j :: 0 <= j < |users| ==> all[j] == users[j];
    assert all[|users|] == u;
  }

  /** The registry as read: a readable list, otherwise nothing. */
  function GetAllUsers(store: UserStore): (r: seq<User>)
    ensures store.registry.Stored? ==> r == store.registry.value
    ensures !store.registry.Stored? ==> r == []
  {
    if store.registry.Stored? then store.registry.value else []
  }

  /**
   The registration procedure, parameterised by the lower-cased key it
   looks names up with. Blank names and an unreadable registry are refused
   and change nothing. A registered player matching the key is signed in.
   Otherwise a new player with the trimmed name is appended to the
   registry and signed in.
   */
  function Register(store: UserStore, username: string, key: string, id: string, now: int): (r: Registration)
    ensures Text.Trim(username) == [] || store.registry.Corrupt? ==> r == Registration(store, None)
    ensures Text.Trim(username) != [] && !store.registry.Corrupt? ==>
      var users := GetAllUsers(store);
      && r.user.Some?
      && r.store.current == r.user && r.store.currentSlot == Stored(r.user.value)
      && match FindUser(users, key)
         case Some(i) => r.user.value == users[i] && r.store.registry == store.registry
         case None =>
           && r.user.value == User(id, Text.Trim(username), now)
           && r.store.registry == Stored(users + [r.user.value])
  {
    if Text.Trim(username) == [] || store.registry.Corrupt? then Registration(store, None)
    else
      var users := GetAllUsers(store);
      match FindUser(users, key)
      case Some(i) =>
        Registration(store.(current := Some(users[i]), currentSlot := Stored(users[i])), Some(users[i]))
      case None =>
        var u := User(id, Text.Trim(username), now);
        Registration(UserStore(Some(u), Stored(u), Stored(users + [u])), Some(u))
  }

  /** `registerUser` as written: the name is looked up exactly as typed, untrimmed, and saved trimmed. */
  function RegisterUser(store: UserStore, username: string, id: string, now: int): (r: Registration)
    ensures Text.Trim(username) != [] && !store.registry.Corrupt? && r.store.registry != store.registry ==>
      forall j :: 0 <= j < |GetAllUsers(store)| ==> Text.ToLower(GetAllUsers(store)[j].username) != Text.ToLower(username)
    ensures r.user.Some? ==> r.store.current == r.user
  {
    Register(store, username, Text.ToLower(username), id, now)
  }

  /** `registerUser` looking the name up the way it is saved: trimmed. */
  function RegisterUserTrimmed(store: UserStore, username: string, id: string, now: int): (r: Registration)
    ensures Text.Trim(username) != [] && !store.registry.Corrupt? && r.store.registry != store.registry ==>
      forall j :: 0 <= j < |GetAllUsers(store)| ==> Text.ToLower(GetAllUsers(store)[j].username) != Text.ToLower(Text.Trim(username))
    ensures r.user.Some? ==> r.store.current == r.user
  {
    Register(store, username, Text.ToLower(Text.Trim(username)), id, now)
  }

  /** Signing out clears the signed-in player and its saved copy; the registry stays. */
  function LogoutUser(store: UserStore): (r: UserStore)
    ensures r.current.None? && r.currentSlot.Absent? && r.registry == store.registry
  {
    UserStore(None, Absent, store.registry)
  }

  /** No two registered players have names equal up to letter case. */
  predicate UniqueNames(users: seq<User>) {
    forall i, j :: 0 <= i < j < |users| ==> Text.ToLower(users[i].username) != Text.ToLower(users[j].username)
  }

  /** The registry invariant of the intended procedure: a readable registry never gains a second player with the same name. */
  lemma RegisterTrimmedKeepsNamesUnique(store: UserStore, username: string, id: string, now: int)
    requires store.registry.Stored? ==> UniqueNames(store.registry.value)
    ensures var r := RegisterUserTrimmed(store, username, id, now);
      r.store.registry.Stored? ==> UniqueNames(r.store.registry.value)
  {
    var r := RegisterUserTrimmed(store, username, id, now);
    if r.store.registry != store.registry {
      AppendKeepsUnique(GetAllUsers(store), r.user.value);
    }
  }

  /** Appending a player whose name matches no registered name keeps the names unique. */
  lemma AppendKeepsUnique(users: seq<User>, u: User)
    requires UniqueNames(users)
    requires forall j :: 0 <= j < |users| ==> Text.ToLower(users[j].username) != Text.ToLower(u.username)
    ensures UniqueNames(users + [u])
  {
    var all := users + [u];
    forall i, j | 0 <= i < j < |all|
      ensures Text.ToLower(all[i].username) != Text.ToLower(all[j].username)
    {
      if j < |users| {
        assert all[i] == users[i] && all[j] == users[j];
      } else {
        assert all[i] == users[i] && all[j] == u;
      }
    }
  }

  /**
   Under the code as written, typing a registered name with surrounding
   blanks (the text trims to the name but is not the name itself) registers
   a second player with the same name.
   */
  lemma RegisterUserDuplicates(u: User, typed: string, id: string, now: int)
    requires Text.Trim(typed) == u.username != []
    requires |typed| != |u.username|
    ensures var r := RegisterUser(UserStore(None, Absent, Stored([u])), typed, id, now);
      && r.store.registry == Stored([u, User(id, u.username, now)])
      && !UniqueNames(r.store.registry.value)
  {
    var reg := [u, User(id, u.username, now)];
    UntrimmedAppends(u, typed, id, now);
    assert !UniqueNames(reg) by {
      assert Text.ToLower(reg[0].username) == Text.ToLower(reg[1].username);
    }
  }

  /** The registration step of `RegisterUserDuplicates`: the untrimmed lookup misses, so a player is appended. */
  lemma UntrimmedAppends(u: User, typed: string, id: string, now: int)
    requires Text.Trim(typed) == u.username != []
    requires |typed| != |u.username|
    ensures RegisterUser(UserStore(None, Absent, Stored([u])), typed, id, now).store.registry
      == Stored([u, User(id, u.username, now)])
  {
    var key := Text.ToLower(typed);
    assert FindUser([u], key).None? by {
      assert |Text.ToLower(u.username)| != |key|;
      assert !Matches([u][0], key);
    }
    RegisterMissAppends(UserStore(None, Absent, Stored([u])), typed, key, id, now);
    PairAppend(u, User(id, u.username, now));
  }

  /** A lookup that finds no one appends the new player with the trimmed name. */
  lemma RegisterMissAppends(store: UserStore, username: string, key: string, id: string, now: int)
    requires Text.Trim(username) != [] && !store.registry.Corrupt?
    requires FindUser(GetAllUsers(store), key).None?
    ensures Register(store, username, key, id, now).store.registry
      == Stored(GetAllUsers(store) + [User(id, Text.Trim(username), now)])
  {
  }

  /** Two one-element sequences joined are the two-element sequence. */
  lemma PairAppend<T>(x: T, y: T)
    ensures [x] + [y] == [x, y]
  {
  }

  /** " Bob" after "Bob" is such a text: one leading blank before a trimmed name. */
  lemma LeadingBlankDuplicates(u: User)
    requires u.username != [] && Text.Trim(u.username) == u.username
    ensures Text.Trim([' '] + u.username) == u.username
    ensures |[' '] + u.username| != |u.username|
  {
  }

  /** With the trimmed lookup, the same input signs the registered player back in. */
  lemma RegisterUserTrimmedFindsFirst(u: User, id: string, now: int)
    requires u.username != [] && Text.Trim(u.username) == u.username
    ensures var store := UserStore(None, Absent, Stored([u]));
      var r := RegisterUserTrimmed(store, [' '] + u.username, id, now);
      r.user == Some(u) && r.store.registry == store.registry
  {
  }

  /**
   Looking up, with the same key, a name just registered signs in the same
   player and leaves the registry as it was, provided a newly appended
   player's (trimmed) name matches that key.
   */
  lemma RegisterAgain(store: UserStore, name: string, key: string, id: string, now: int, name2: string, id2: string, now2: int)
    requires Text.Trim(name) != [] && !store.registry.Corrupt?
    requires Text.ToLower(Text.Trim(name)) == key && Text.Trim(name2) != []
    ensures var r1 := Register(store, name, key, id, now);
      var r2 := Register(r1.store, name2, key, id2, now2);
      r2.user == r1.user && r2.store.registry == r1.store.registry
  {
    var r1 := Register(store, name, key, id, now);
    FindUserAppend(GetAllUsers(store), r1.user.value, key);
  }

  /**
   Registering a name a second time, in any letter case and with any
   surrounding blanks, signs in the same player and leaves the registry as
   it was.
   */
  lemma RegisterAgainSignsInSame(store: UserStore, name: string, id: string, now: int, name2: string, id2: string, now2: int)
    requires Text.Trim(name) != [] && !store.registry.Corrupt?
    requires Text.ToLower(Text.Trim(name2)) == Text.ToLower(Text.Trim(name))
    ensures var r1 := RegisterUserTrimmed(store, name, id, now);
      var r2 := RegisterUserTrimmed(r1.store, name2, id2, now2);
      r2.user == r1.user && r2.store.registry == r1.store.registry
  {
    var key := Text.ToLower(Text.Trim(name));
    assert |Text.Trim(name2)| == |Text.Trim(name)|;
    RegisterAgain(store, name, key, id, now, name2, id2, now2);
  }

  /**
   Under the code as written the same holds for a name typed without
   surrounding blanks, registered again in another letter case.
   */
  lemma RegisterUserTwice(store: UserStore, name: string, id: string, now: int, name2: string, id2: string, now2: int)
    requires name != [] && Text.Trim(name) == name && !store.registry.Corrupt?
    requires Text.Trim(name2) != [] && Text.ToLower(name2) == Text.ToLower(name)
    ensures var r1 := RegisterUser(store, name, id, now);
      var r2 := RegisterUser(r1.store, name2, id2, now2);
      r2.user == r1.user && r2.store.registry == r1.store.registry
  {
    RegisterAgain(store, name, Text.ToLower(name), id, now, name2, id2, now2);
  }

  /** Signing out and registering the same name again signs the same player back in. */
  lemma LogoutThenRegister(store: UserStore, name: string, id: string, now: int, id2: string, now2: int)
    requires Text.Trim(name) != [] && !store.registry.Corrupt?
    ensures var r1 := RegisterUserTrimmed(store, name, id, now);
      RegisterUserTrimmed(LogoutUser(r1.store), name, id2, now2).user == r1.user
  {
    var r1 := RegisterUserTrimmed(store, name, id, now);
    RegisterAgainSignsInSame(store, name, id, now, name, id2, now2);
    RegisterReadsRegistryOnly(r1.store, LogoutUser(r1.store), name, Text.ToLower(Text.Trim(name)), id2, now2);
  }

  /**
   Under the code as written the same holds for a name typed without
   surrounding blanks; a name typed with them can register a second player
   instead (`RegisterUserDuplicates`).
   */
  lemma LogoutThenRegisterAsWritten(store: UserStore, name: string, id: string, now: int, id2: string, now2: int)
    requires name != [] && Text.Trim(name) == name && !store.registry.Corrupt?
    ensures var r1 := RegisterUser(store, name, id, now);
      RegisterUser(LogoutUser(r1.store), name, id2, now2).user == r1.user
  {
    var r1 := RegisterUser(store, name, id, now);
    RegisterUserTwice(store, name, id, now, name, id2, now2);
    RegisterReadsRegistryOnly(r1.store, LogoutUser(r1.store), name, Text.ToLower(name), id2, now2);
  }

  /** Who is signed in makes no difference to whom a registration returns: only the registry is read. */
  lemma RegisterReadsRegistryOnly(store: UserStore, store2: UserStore, username: string, key: string, id: string, now: int)
    requires store.registry == store2.registry
    ensures Register(store, username, key, id, now).user == Register(store2, username, key, id, now).user
  {
  }

  /** The player a registration signs in is the one the next visit starts with. */
  lemma RegisterReloads(store: UserStore, name: string, id: string, now: int)
    ensures var r := RegisterUserTrimmed(store, name, id, now);
      r.user.Some? ==> MountUsers(r.store.currentSlot, r.store.registry).current == r.user
  {
  }
}
