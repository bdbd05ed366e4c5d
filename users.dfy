/** backend/app/auth/users.py: the in-memory user directory, the module-level `_users`
    dictionary and `_next_id` counter, as an object whose methods update them in place. */
module Users {
  import opened Wrappers
  import opened PyText
  import opened PyValues
  import opened UserModel
  import opened Security

  const DefaultAdminUsername: string := "admin"

  /** The first user, in dictionary order, whose case-folded name is `key`
      (the scan of `get_user_by_username`). */
  function FirstMatch(users: map<int, User>, order: seq<int>, key: string): (r: Option<User>)
    requires forall i :: 0 <= i < |order| ==> order[i] in users
    ensures r.Some? ==> r.value in users.Values && Lower(r.value.username) == key
    ensures r.Some? ==> exists i :: 0 <= i < |order| && users[order[i]] == r.value &&
                                  forall j :: 0 <= j < i ==> Lower(users[order[j]].username) != key
    ensures r.None? <==> forall i :: 0 <= i < |order| ==> Lower(users[order[i]].username) != key
  {
    if order == [] then None
    else if Lower(users[order[0]].username) == key then Some(users[order[0]])
    else
      var r := FirstMatch(users, order[1..], key);
      assert forall i :: 1 <= i < |order| ==> order[i] == order[1..][i - 1];
      assert r.Some? ==> exists i :: 0 <= i < |order| && users[order[i]] == r.value &&
                                    forall j :: 0 <= j < i ==> Lower(users[order[j]].username) != key
      by {
        if r.Some? {
          var i :| 0 <= i < |order[1..]| && users[order[1..][i]] == r.value &&
            forall j :: 0 <= j < i ==> Lower(users[order[1..][j]].username) != key;
          assert users[order[i + 1]] == r.value;
          forall j | 0 <= j < i + 1
            ensures Lower(users[order[j]].username) != key
          {
            if j > 0 {
              assert order[j] == order[1..][j - 1];
            }
          }
        }
      }
      r
  }

  /** The dictionary `_load_users` builds from the stored records: later records with the
      same id replace earlier ones. */
  function Indexed(records: seq<User>): (m: map<int, User>)
    ensures forall id :: id in m ==> m[id].id == id
    ensures forall i :: 0 <= i < |records| ==> records[i].id in m
  {
    if records == [] then map[]
    else
      var last := records[|records| - 1];
      var m := Indexed(records[..|records| - 1])[last.id := last];
      assert forall i :: 0 <= i < |records| - 1 ==> records[i] == records[..|records| - 1][i];
      m
  }

  /** Storing one more record. */
  lemma IndexedSnoc(records: seq<User>, u: User)
    ensures Indexed(records + [u]) == Indexed(records)[u.id := u]
  {
    assert (records + [u])[..|records|] == records;
  }

  /** The dictionary holds exactly the records' ids as keys. */
  lemma {:induction false} IndexedKeys(records: seq<User>)
    ensures Indexed(records).Keys == (set i | 0 <= i < |records| :: records[i].id)
  {
    if records != [] {
      var prefix := records[..|records| - 1];
      var last := records[|records| - 1];
      IndexedKeys(prefix);
      IndexedSnoc(prefix, last);
      assert records == prefix + [last];
      assert forall i :: 0 <= i < |prefix| ==> records[i] == prefix[i];
      forall id | id in Indexed(records)
        ensures id in (set i | 0 <= i < |records| :: records[i].id)
      {
        if id != last.id {
          var i :| 0 <= i < |prefix| && prefix[i].id == id;
          assert records[i].id == id;
        }
      }
    }
  }

  /** The last record carrying an id is the one stored under it. */
  lemma {:induction false} IndexedLastWins(records: seq<User>, i: int)
    requires 0 <= i < |records|
    requires forall j :: i < j < |records| ==> records[j].id != records[i].id
    ensures Indexed(records)[records[i].id] == records[i]
  {
    var prefix := records[..|records| - 1];
    var last := records[|records| - 1];
    IndexedSnoc(prefix, last);
    assert records == prefix + [last];
    if i < |records| - 1 {
      assert records[i] == prefix[i];
      assert forall j :: i < j < |prefix| ==> prefix[j] == records[j];
      IndexedLastWins(prefix, i);
    }
  }

  /** Recording one more id: it joins the listing only if it is new. */
  lemma FirstSeenSnoc(records: seq<User>, u: User)
    ensures FirstSeen(records + [u]) ==
      if u.id in FirstSeen(records) then FirstSeen(records) else FirstSeen(records) + [u.id]
  {
    assert (records + [u])[..|records|] == records;
  }

  /** The records' ids in the order each first appears: the key order of the dictionary
      `_load_users` fills, since assigning to an existing key keeps its place. */
  function FirstSeen(records: seq<User>): (ids: seq<int>)
    ensures forall k, l :: 0 <= k < l < |ids| ==> ids[k] != ids[l]
  {
    if records == [] then []
    else
      var prefix := records[..|records| - 1];
      var id := records[|records| - 1].id;
      if id in FirstSeen(prefix) then FirstSeen(prefix) else FirstSeen(prefix) + [id]
  }

  /** The listing holds exactly the ids that occur in the records. */
  lemma {:induction false} FirstSeenMembers(records: seq<User>)
    ensures forall id :: id in FirstSeen(records) <==> exists i :: 0 <= i < |records| && records[i].id == id
  {
    if records != [] {
      var prefix := records[..|records| - 1];
      FirstSeenMembers(prefix);
      assert forall i :: 0 <= i < |records| - 1 ==> records[i] == prefix[i];
    }
  }

  /** The listing is in order of first appearance: wherever an id occurs in the records,
      every id listed before it has already occurred. */
  lemma {:induction false} FirstSeenOrder(records: seq<User>, k: int, l: int, j: int)
    requires 0 <= k < l < |FirstSeen(records)|
    requires 0 <= j < |records| && records[j].id == FirstSeen(records)[l]
    ensures exists i :: 0 <= i < j && records[i].id == FirstSeen(records)[k]
  {
    var n := |records|;
    var prefix := records[..n - 1];
    var ids, pids := FirstSeen(records), FirstSeen(prefix);
    FirstSeenMembers(records);
    FirstSeenMembers(prefix);
    assert forall i :: 0 <= i < n - 1 ==> records[i] == prefix[i];
    if records[n - 1].id in pids {
      assert ids == pids;
      if j < n - 1 {
        FirstSeenOrder(prefix, k, l, j);
      } else {
        var j' :| 0 <= j' < n - 1 && prefix[j'].id == ids[l];
        FirstSeenOrder(prefix, k, l, j');
      }
    } else {
      assert ids == pids + [records[n - 1].id];
      if l < |pids| {
        if j < n - 1 {
          FirstSeenOrder(prefix, k, l, j);
        } else {
          assert false;
        }
      } else {
        assert records[j].id !in pids;
        assert j == n - 1;
        assert ids[k] == pids[k] && pids[k] in pids;
        var i :| 0 <= i < n - 1 && prefix[i].id == ids[k];
        assert records[i].id == ids[k];
      }
    }
  }

  /** `os.getenv("ADMIN_USERNAME", "admin")` */
  function AdminUsername(env: Option<string>): string
  {
    if env.Some? then env.value else DefaultAdminUsername
  }

  /** `ADMIN_PASSWORD` is set and non-empty. */
  predicate PasswordConfigured(env: Option<string>)
  {
    env.Some? && env.value != ""
  }

  /** What `initialize_admin` did, in place of the messages it prints. */
  datatype AdminOutcome =
    | UsersExist
    | PasswordMissing
    | Created(user: User)
    | Crashed(error: Exception)

  /** `ord` lists the keys of `us`, each exactly once: the iteration order of a dict. */
  ghost predicate Lists(us: map<int, User>, ord: seq<int>)
  {
    && (forall k :: 0 <= k < |ord| ==> ord[k] in us)
    && (forall id :: id in us ==> id in ord)
    && (forall k, l :: 0 <= k < l < |ord| ==> ord[k] != ord[l])
    && |ord| == |us|
  }

  /** A new key goes to the end of the iteration order. */
  lemma ListsInsertNew(us: map<int, User>, ord: seq<int>, id: int, u: User)
    requires Lists(us, ord) && id !in us
    ensures Lists(us[id := u], ord + [id])
  {
    assert |us[id := u]| == |us| + 1;
  }

  /** Replacing the value of an existing key keeps its place. */
  lemma ListsReplace(us: map<int, User>, ord: seq<int>, id: int, u: User)
    requires Lists(us, ord) && id in us
    ensures Lists(us[id := u], ord)
  {
    assert us[id := u].Keys == us.Keys;
  }

  /** The insertion loop of `_load_users`: every record is stored under its id, and a key
      joins the insertion order the first time it is seen. */
  method IndexRecords(records: seq<User>) returns (us: map<int, User>, ord: seq<int>)
    ensures us == Indexed(records)
    ensures ord == FirstSeen(records)
    ensures Lists(us, ord)
  {
    us, ord := map[], [];
    for i := 0 to |records|
      invariant us == Indexed(records[..i])
      invariant ord == FirstSeen(records[..i])
      invariant Lists(us, ord)
    {
      var u := records[i];
      assert records[..i + 1] == records[..i] + [u];
      IndexedSnoc(records[..i], u);
      FirstSeenSnoc(records[..i], u);
      assert u.id in ord <==> u.id in us;
      if u.id !in us {
        ListsInsertNew(us, ord, u.id, u);
        ord := ord + [u.id];
      } else {
        ListsReplace(us, ord, u.id, u);
      }
      us := us[u.id := u];
    }
    assert records[..|records|] == records;
  }

  /** `max(_users.keys())`: the largest key of a non-empty dictionary. */
  method LargestKey(us: map<int, User>, ord: seq<int>) returns (m: int)
    requires |ord| > 0
    requires forall k :: 0 <= k < |ord| ==> ord[k] in us
    requires forall id :: id in us ==> id in ord
    ensures m in us
    ensures forall id :: id in us ==> id <= m
  {
    m := ord[0];
    for i := 1 to |ord|
      invariant m in us
      invariant forall k :: 0 <= k < i ==> ord[k] <= m
    {
      if ord[i] > m {
        m := ord[i];
      }
    }
    forall id | id in us
      ensures id <= m
    {
      var k :| 0 <= k < |ord| && ord[k] == id;
    }
  }

  class UserDirectory {
    /** `_users`: id to user. */
    var users: map<int, User>
    /** The keys of `_users` in insertion order, the order Python iterates a dict in. */
    var order: seq<int>
    /** `_next_id` */
    var nextId: int

    /** Every key is below `nextId` and is the id of its user; `order` lists each key once. */
    ghost predicate Valid()
      reads this
    {
      && (forall id :: id in users ==> id < nextId && users[id].id == id)
      && Lists(users, order)
    }

    /** No two users have names that are equal once case-folded. */
    ghost predicate NamesUnique()
      reads this
    {
      forall a, b :: a in users && b in users && a != b ==>
        Lower(users[a].username) != Lower(users[b].username)
    }

    /** The module's initial state: no users, next id 1. */
    constructor ()
      ensures Valid() && NamesUnique()
      ensures users == map[] && order == [] && nextId == 1
    {
      users, order, nextId := map[], [], 1;
    }

    /** `_load_users` run on the initial state: insert every stored record under its id,
        then set the counter to one past the largest id if any user was loaded. */
    constructor Load(records: seq<User>)
      ensures Valid()
      ensures users == Indexed(records)
      ensures order == FirstSeen(records)
      ensures users == map[] ==> nextId == 1
      ensures users != map[] ==> nextId - 1 in users
    {
      var us, ord := IndexRecords(records);
      var next := 1;
      if |ord| > 0 {
        var m := LargestKey(us, ord);
        next := m + 1;
      } else {
        assert |us| == 0;
      }
      assert forall id :: id in us ==> id < next;
      users, order, nextId := us, ord, next;
    }

    /** `get_user_by_id`: a plain lookup. */
    function GetUserById(id: int): (r: Option<User>)
      reads this
      ensures r.Some? <==> id in users
      ensures Valid() && r.Some? ==> r.value.id == id && r.value == users[id]
    {
      if id in users then Some(users[id]) else None
    }

    /** The user `get_user_by_username` returns. */
    function FindByUsername(name: string): (r: Option<User>)
      reads this
      requires Valid()
      ensures r.Some? ==> r.value in users.Values && Lower(r.value.username) == Lower(name)
      ensures r.Some? ==> r.value.id in users && users[r.value.id] == r.value
      ensures r.None? <==> forall id :: id in users ==> Lower(users[id].username) != Lower(name)
    {
      var r := FirstMatch(users, order, Lower(name));
      assert (forall id :: id in users ==> Lower(users[id].username) != Lower(name)) ==> r.None? by {
        assert forall i :: 0 <= i < |order| ==> order[i] in users;
      }
      assert r.None? ==> forall id :: id in users ==> Lower(users[id].username) != Lower(name) by {
        if r.None? {
          forall id | id in users
            ensures Lower(users[id].username) != Lower(name)
          {
            var k :| 0 <= k < |order| && order[k] == id;
          }
        }
      }
      assert r.Some? ==> r.value.id in users && users[r.value.id] == r.value by {
        if r.Some? {
          var k :| 0 <= k < |order| && users[order[k]] == r.value;
        }
      }
      r
    }

    /** `get_user_by_username`: scan the users in dictionary order and return the first whose
        case-folded name matches. */
    method GetUserByUsername(name: string) returns (r: Option<User>)
      requires Valid()
      ensures r == FindByUsername(name)
    {
      var key := Lower(name);
      var i := 0;
      while i < |order|
        invariant 0 <= i <= |order|
        invariant FirstMatch(users, order[i..], key) == FirstMatch(users, order, key)
      {
        var user := users[order[i]];
        if Lower(user.username) == key {
          return Some(user);
        }
        assert order[i..][1..] == order[i + 1..];
        i := i + 1;
      }
      return None;
    }

    /** `create_user`: refuse a case-insensitive duplicate without touching the state;
        otherwise store an active user under the next id and advance the counter. */
    method CreateUser(username: string, hashedPassword: string, isAdmin: bool := false)
      returns (r: Result<User, Exception>)
      requires Valid()
      modifies this
      ensures Valid()
      ensures old(FindByUsername(username)).Some? ==>
        && r == Err(ValueError("Username '" + username + "' already exists"))
        && users == old(users) && order == old(order) && nextId == old(nextId)
      ensures old(FindByUsername(username)).None? ==>
        && r == Ok(User(old(nextId), username, hashedPassword, true, isAdmin))
        && old(nextId) !in old(users)
        && users == old(users)[old(nextId) := r.value]
        && order == old(order) + [old(nextId)]
        && nextId == old(nextId) + 1
      ensures old(NamesUnique()) ==> NamesUnique()
    {
      var existing := GetUserByUsername(username);
      if existing.Some? {
        return Err(ValueError("Username '" + username + "' already exists"));
      }
      var user := User(nextId, username, hashedPassword, isAdmin := isAdmin);
      ListsInsertNew(users, order, user.id, user);
      users := users[user.id := user];
      order := order + [user.id];
      nextId := nextId + 1;
      return Ok(user);
    }

    /** `initialize_admin` as intended: on an empty directory with a configured password,
        create the administrator with the hashed password. */
    method InitializeAdmin(usernameEnv: Option<string>, passwordEnv: Option<string>, hasher: Hasher)
      returns (outcome: AdminOutcome)
      requires Valid()
      modifies this
      ensures Valid()
      ensures old(users) != map[] ==>
        outcome == UsersExist && users == old(users) && order == old(order) && nextId == old(nextId)
      ensures old(users) == map[] && !PasswordConfigured(passwordEnv) ==>
        outcome == PasswordMissing && users == old(users) && order == old(order) && nextId == old(nextId)
      ensures old(users) == map[] && PasswordConfigured(passwordEnv) ==>
        && outcome == Created(User(old(nextId), AdminUsername(usernameEnv), hasher.hash(passwordEnv.value), true, true))
        && users == map[old(nextId) := outcome.user]
        && order == [old(nextId)]
        && nextId == old(nextId) + 1
    {
      if users != map[] {
        return UsersExist;
      }
      var adminUsername := AdminUsername(usernameEnv);
      if !PasswordConfigured(passwordEnv) {
        return PasswordMissing;
      }
      assert order == [];
      var r := CreateUser(adminUsername, hasher.hash(passwordEnv.value), isAdmin := true);
      // the `except ValueError` branch: a duplicate name cannot occur in an empty directory
      if r.Err? {
        assert false;
      }
      outcome := Created(r.value);
    }

    /** `initialize_admin` as written: its local import names `get_password_hash`, which
        the security module defines only as `Hasher.get_password_hash`, so the import fails
        with ImportError before any user is created. */
    method InitializeAdminAsWritten(usernameEnv: Option<string>, passwordEnv: Option<string>)
      returns (outcome: AdminOutcome)
      requires Valid()
      ensures users != map[] ==> outcome == UsersExist
      ensures users == map[] && !PasswordConfigured(passwordEnv) ==> outcome == PasswordMissing
      ensures users == map[] && PasswordConfigured(passwordEnv) ==>
        outcome.Crashed? && outcome.error.ImportError?
    {
      if users != map[] {
        return UsersExist;
      }
      var adminUsername := AdminUsername(usernameEnv);
      if !PasswordConfigured(passwordEnv) {
        return PasswordMissing;
      }
      return Crashed(ImportError("cannot import name 'get_password_hash' from 'backend.app.auth.security'"));
    }
  }

  /** With unique case-folded names, the lookup by name finds the one user carrying it. */
  lemma UniqueNameLookup(d: UserDirectory, name: string, id: int)
    requires d.Valid() && d.NamesUnique()
    requires id in d.users && Lower(d.users[id].username) == Lower(name)
    ensures d.FindByUsername(name) == Some(d.users[id])
  {
    var u := d.FindByUsername(name).value;
    var r := FirstMatch(d.users, d.order, Lower(name));
    var k :| 0 <= k < |d.order| && d.users[d.order[k]] == r.value;
  }

  /** Two stored records whose names differ only in case. */
  function CollidingRecords(hash1: string, hash2: string): seq<User>
  {
    [User(1, "Bob", hash1), User(2, "bob", hash2)]
  }

  /** Their ids in order of first appearance. */
  lemma CollidingRecordsOrder(hash1: string, hash2: string)
    ensures FirstSeen(CollidingRecords(hash1, hash2)) == [1, 2]
  {
    var records := CollidingRecords(hash1, hash2);
    assert records[..1][..0] == [];
    assert FirstSeen(records[..1]) == [1];
  }

  /** The dictionary they load into. */
  lemma CollidingRecordsIndexed(hash1: string, hash2: string)
    ensures Indexed(CollidingRecords(hash1, hash2)) == map[1 := User(1, "Bob", hash1), 2 := User(2, "bob", hash2)]
  {
    var records := CollidingRecords(hash1, hash2);
    assert records[..1][..0] == [];
    assert Indexed(records[..1]) == map[1 := records[0]];
  }

  lemma BobFolds()
    ensures Lower("BOB") == "bob" && Lower("Bob") == "bob"
  {
    assert |Lower("BOB")| == 3 && |Lower("Bob")| == 3;
  }

  /** Loading two records whose names differ only in case: the dictionary keeps the
      records' order, so the lookup by name finds the first of them. */
  method LoadCaseCollision(hash1: string, hash2: string) returns (order: seq<int>, found: Option<User>)
    ensures order == [1, 2]
    ensures found == Some(User(1, "Bob", hash1))
  {
    CollidingRecordsOrder(hash1, hash2);
    CollidingRecordsIndexed(hash1, hash2);
    BobFolds();
    var d := new UserDirectory.Load(CollidingRecords(hash1, hash2));
    assert FirstMatch(d.users, d.order, "bob") == Some(User(1, "Bob", hash1));
    order := d.order;
    found := d.GetUserByUsername("BOB");
  }

  /** Bootstrapping a fresh directory with a password: the intended code creates the
      administrator with id 1; the code as written fails on its import. */
  method BootstrapFreshDirectory(usernameEnv: Option<string>, password: string, hasher: Hasher)
    returns (intended: AdminOutcome, asWritten: AdminOutcome)
    requires password != ""
    ensures intended == Created(User(1, AdminUsername(usernameEnv), hasher.hash(password), true, true))
    ensures asWritten.Crashed? && asWritten.error.ImportError?
  {
    var empty := new UserDirectory();
    intended := empty.InitializeAdmin(usernameEnv, Some(password), hasher);
    var other := new UserDirectory();
    asWritten := other.InitializeAdminAsWritten(usernameEnv, Some(password));
  }
}
