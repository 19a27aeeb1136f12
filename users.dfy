/** The user service: create, read, update and delete users in the `users`
    table, plus the e-mail lookup, the text search, the row count and the
    most-recent-users query. The clock and the id generator are parameters
    (`now`, `freshId`). */
module Users {
  import opened Options
  import opened Text
  import opened Seqs
  import opened RowStore
  import opened Records

  /** What `createUser` takes: a user without its id and creation time. */
  datatype UserInput = UserInput(name: string, email: string, avatar: Option<string>)

  /** What `updateUser` takes: any of name, email and avatar. */
  datatype UserPatch = UserPatch(name: Option<string>, email: Option<string>, avatar: Option<string>)

  const NoChanges := UserPatch(None, None, None)

  /** The default `limit` of `getRecentUsers`. */
  const DefaultRecentLimit: nat := 5

  /** The id a user is stored under. */
  function UserId(u: User): string {
    u.id
  }

  /** `{...userData, id, createdAt: now}` */
  function NewUser(data: UserInput, id: string, now: int): (u: User)
    ensures u.id == id && u.createdAt == now
    ensures u.name == data.name && u.email == data.email && u.avatar == data.avatar
  {
    User(id, data.name, data.email, data.avatar, now)
  }

  /** `{...existing, ...updates}`: the patch's fields win, id and createdAt stay,
      and no timestamp is touched. */
  function MergeUser(u: User, p: UserPatch): (r: User)
    ensures r.id == u.id && r.createdAt == u.createdAt
    ensures r.name == p.name.GetOr(u.name)
    ensures r.email == p.email.GetOr(u.email)
    ensures r.avatar == if p.avatar.Some? then p.avatar else u.avatar
  {
    User(u.id, p.name.GetOr(u.name), p.email.GetOr(u.email),
         if p.avatar.Some? then p.avatar else u.avatar, u.createdAt)
  }

  /** An empty patch changes nothing. */
  lemma EmptyPatchChangesNothing(u: User)
    ensures MergeUser(u, NoChanges) == u
  {
  }

  /** Applying the same patch twice is applying it once. */
  lemma MergeUserIdempotent(u: User, p: UserPatch)
    ensures MergeUser(MergeUser(u, p), p) == MergeUser(u, p)
  {
  }

  function EmailIs(email: string): User -> bool {
    (u: User) => Lower(u.email) == Lower(email)
  }

  /** `getUserByEmail(email)` over the table's rows: the first user, in table
      order, whose lower-cased e-mail equals the lower-cased argument. */
  function UserByEmail(us: seq<User>, email: string): (r: Option<User>)
    ensures r.Some? ==> exists i :: (0 <= i < |us| && us[i] == r.value &&
      Lower(us[i].email) == Lower(email) &&
      forall j :: 0 <= j < i ==> Lower(us[j].email) != Lower(email))
    ensures r.None? <==> forall i :: 0 <= i < |us| ==> Lower(us[i].email) != Lower(email)
  {
    match FindIndex(us, EmailIs(email))
    case None => None
    case Some(i) => Some(us[i])
  }

  /** The argument's case does not matter to the e-mail lookup. */
  lemma EmailCaseIrrelevant(us: seq<User>, email: string)
    ensures UserByEmail(us, email) == UserByEmail(us, Lower(email))
  {
    LowerIdempotent(email);
    assert EmailIs(email) == EmailIs(Lower(email));
  }

  function MatchesQuery(query: string): User -> bool {
    (u: User) => ContainsIgnoringCase(u.name, query) || ContainsIgnoringCase(u.email, query)
  }

  /** `searchUsers(query)` over the table's rows: the users whose lower-cased
      name or e-mail contains the lower-cased query, in table order. */
  function SearchUsers(us: seq<User>, query: string): (r: seq<User>)
    ensures forall u :: u in r <==>
      (u in us && (HasSubstring(Lower(u.name), Lower(query)) || HasSubstring(Lower(u.email), Lower(query))))
    ensures IsSubsequence(r, us)
  {
    Filter(us, MatchesQuery(query))
  }

  /** Searching for the empty string returns every user. */
  lemma EmptySearchReturnsAll(us: seq<User>)
    ensures SearchUsers(us, "") == us
  {
    forall i | 0 <= i < |us| ensures MatchesQuery("")(us[i]) {
      EmptyQueryMatches(us[i].name);
    }
    FilterKeepsAll(us, MatchesQuery(""));
  }

  /** Each user was created no earlier than the next one: newest first. */
  ghost predicate NewestFirst(us: seq<User>) {
    |us| < 2 || (us[0].createdAt >= us[1].createdAt && NewestFirst(us[1..]))
  }

  /** NewestFirst read pair by pair. */
  lemma {:induction false} NewestFirstAt(us: seq<User>, i: nat, j: nat)
    requires NewestFirst(us) && i <= j < |us|
    ensures us[i].createdAt >= us[j].createdAt
  {
    if 0 < i {
      NewestFirstAt(us[1..], i - 1, j - 1);
    } else if 0 < j {
      NewestFirstAt(us[1..], 0, j - 1);
    }
  }

  /** A prefix of a newest-first sequence is newest first. */
  lemma {:induction false} NewestFirstPrefix(us: seq<User>, n: nat)
    requires NewestFirst(us) && n <= |us|
    ensures NewestFirst(us[..n])
  {
    if 2 <= n {
      NewestFirstPrefix(us[1..], n - 1);
      assert us[..n][1..] == us[1..][..n - 1];
    }
  }

  /** One step of a stable sort by `(a, b) => b.createdAt - a.createdAt`: u goes
      after every user strictly newer than it and before the rest. */
  function Insert(u: User, us: seq<User>): (r: seq<User>)
    ensures multiset(r) == multiset(us) + multiset{u}
    ensures r != [] && (r[0] == u || (us != [] && r[0] == us[0]))
  {
    if us == [] || us[0].createdAt <= u.createdAt then [u] + us
    else
      assert us == [us[0]] + us[1..];
      [us[0]] + Insert(u, us[1..])
  }

  lemma {:induction false} InsertKeepsOrder(u: User, us: seq<User>)
    requires NewestFirst(us)
    ensures NewestFirst(Insert(u, us))
  {
    if us != [] && us[0].createdAt > u.createdAt {
      InsertKeepsOrder(u, us[1..]);
      assert Insert(u, us)[1..] == Insert(u, us[1..]);
    }
  }

  /** The users born at time c. */
  function BornAt(c: int): User -> bool {
    (u: User) => u.createdAt == c
  }

  /** Inserting u changes no creation time's group but u's own, and u's group
      gains u at its front. */
  lemma {:induction false} InsertIsStable(u: User, us: seq<User>, c: int)
    ensures Filter(Insert(u, us), BornAt(c)) ==
      if u.createdAt == c then [u] + Filter(us, BornAt(c)) else Filter(us, BornAt(c))
  {
    if us != [] && us[0].createdAt > u.createdAt {
      InsertIsStable(u, us[1..], c);
      assert Insert(u, us)[1..] == Insert(u, us[1..]);
    }
  }

  /** `users.sort((a, b) => b.createdAt - a.createdAt)`: a stable sort, newest
      first; the sort the JavaScript engine runs is not modelled, only its
      result. */
  function SortByRecency(us: seq<User>): (r: seq<User>)
    ensures multiset(r) == multiset(us)
    ensures |r| == |us|
  {
    if us == [] then []
    else
      assert us == [us[0]] + us[1..];
      Insert(us[0], SortByRecency(us[1..]))
  }

  /** The sort puts the users newest first. */
  lemma {:induction false} SortIsNewestFirst(us: seq<User>)
    ensures NewestFirst(SortByRecency(us))
  {
    if us != [] {
      SortIsNewestFirst(us[1..]);
      InsertKeepsOrder(us[0], SortByRecency(us[1..]));
    }
  }

  /** The sort is stable: users created at the same time keep their table order. */
  lemma {:induction false} SortIsStable(us: seq<User>, c: int)
    ensures Filter(SortByRecency(us), BornAt(c)) == Filter(us, BornAt(c))
  {
    if us != [] {
      SortIsStable(us[1..], c);
      InsertIsStable(us[0], SortByRecency(us[1..]), c);
    }
  }

  function Min(a: nat, b: nat): nat {
    if a <= b then a else b
  }

  /** `getRecentUsers(limit)` over the table's rows: the first `limit` users
      once sorted newest first. */
  function RecentUsers(us: seq<User>, limit: nat): (r: seq<User>)
    ensures |r| == Min(limit, |us|)
    ensures multiset(r) <= multiset(us)
    ensures NewestFirst(r)
  {
    var sorted := SortByRecency(us);
    var n := Min(limit, |us|);
    SortIsNewestFirst(us);
    NewestFirstPrefix(sorted, n);
    assert sorted == sorted[..n] + sorted[n..];
    sorted[..n]
  }

  /** `getRecentUsers()` without an argument: five users when the table holds
      five or more, all of them otherwise, newest first. */
  function DefaultRecentUsers(us: seq<User>): (r: seq<User>)
    ensures |r| == Min(DefaultRecentLimit, |us|)
    ensures multiset(r) <= multiset(us)
    ensures NewestFirst(r)
  {
    RecentUsers(us, DefaultRecentLimit)
  }

  /** In a newest-first sequence, no user after position n is newer than one
      before it. */
  lemma HeadNotOlderThanTail(s: seq<User>, n: nat)
    requires NewestFirst(s) && n <= |s|
    ensures forall u, v :: u in s[..n] && v in s[n..] ==> v.createdAt <= u.createdAt
  {
    forall u, v | u in s[..n] && v in s[n..]
      ensures v.createdAt <= u.createdAt
    {
      var i :| 0 <= i < n && s[..n][i] == u;
      var j :| 0 <= j < |s[n..]| && s[n..][j] == v;
      assert s[i] == u && s[n + j] == v;
      NewestFirstAt(s, i, n + j);
    }
  }

  /** What a prefix leaves out of a sequence is its tail. */
  lemma SplitLeavesTail(s: seq<User>, n: nat)
    requires n <= |s|
    ensures multiset(s) - multiset(s[..n]) == multiset(s[n..])
  {
    assert s == s[..n] + s[n..];
  }

  /** No user left out of the recent users was created later than any user
      returned. */
  lemma OmittedAreNotNewer(us: seq<User>, limit: nat)
    ensures forall u, v :: (u in RecentUsers(us, limit) &&
      v in multiset(us) - multiset(RecentUsers(us, limit))) ==> v.createdAt <= u.createdAt
  {
    var sorted := SortByRecency(us);
    var n := Min(limit, |us|);
    assert RecentUsers(us, limit) == sorted[..n];
    SplitLeavesTail(sorted, n);
    SortIsNewestFirst(us);
    HeadNotOlderThanTail(sorted, n);
  }

  class UserService {
    const table: Table<User>

    ghost predicate Valid()
      reads this, table
    {
      table.Valid() && KeyedBy(table.entries, UserId)
    }

    constructor (table: Table<User>)
      requires table.Valid() && KeyedBy(table.entries, UserId)
      ensures this.table == table && Valid()
    {
      this.table := table;
    }

    /** `getAllUsers()`: the rows in table order, each carrying the id it is
        stored under. */
    function GetAllUsers(): (r: seq<User>)
      reads this, table
      requires Valid()
      ensures |r| == |table.entries|
      ensures forall i :: 0 <= i < |r| ==> r[i] == table.entries[i].row && r[i].id == table.entries[i].key
    {
      forall i | 0 <= i < |table.entries| ensures table.entries[i].row.id == table.entries[i].key {
        KeyedByAt(table.entries, UserId, i);
      }
      table.GetTable()
    }

    /** `getUserById(id)`: the row stored under id, absent when there is none. */
    function GetUserById(id: string): (r: Option<User>)
      reads this, table
      requires Valid()
      ensures r.Some? <==> id in Keys(table.entries)
      ensures r.Some? ==> Entry(id, r.value) in table.entries
      ensures r.Some? ==> r.value.id == id
    {
      var r := table.GetRow(id);
      assert r.Some? ==> r.value.id == id by {
        if r.Some? {
          FoundUnderOwnKey(table.entries, UserId, id);
        }
      }
      r
    }

    /** `getUsersCount()`: one per stored id. */
    function GetUsersCount(): (n: nat)
      reads this, table
      requires Valid()
      ensures n == |KeySet(table.entries)|
    {
      DistinctKeysCount(table.entries);
      |GetAllUsers()|
    }

    method CreateUser(data: UserInput, freshId: string, now: int) returns (user: User)
      requires Valid()
      modifies table
      ensures Valid()
      ensures user == NewUser(data, freshId, now)
      ensures table.entries == Put(old(table.entries), freshId, user)
    {
      user := NewUser(data, freshId, now);
      PutKeepsKeyedBy(table.entries, UserId, user);
      table.SetRow(freshId, user);
    }

    method UpdateUser(id: string, updates: UserPatch) returns (r: Option<User>)
      requires Valid()
      modifies table
      ensures Valid()
      ensures old(table.GetRow(id)).None? ==> r.None? && table.entries == old(table.entries)
      ensures old(table.GetRow(id)).Some? ==>
        && r == Some(MergeUser(old(table.GetRow(id)).value, updates))
        && table.entries == Put(old(table.entries), id, r.value)
      ensures r.Some? <==> id in old(Keys(table.entries))
      ensures r.Some? ==> r.value.id == id
      ensures Keys(table.entries) == old(Keys(table.entries))
    {
      var existing := GetUserById(id);
      if existing.None? {
        return None;
      }
      var updated := MergeUser(existing.value, updates);
      PutKeepsKeyedBy(table.entries, UserId, updated);
      PutKeys(table.entries, id, updated);
      table.SetRow(id, updated);
      r := Some(updated);
    }

    method DeleteUser(id: string) returns (deleted: bool)
      requires Valid()
      modifies table
      ensures Valid()
      ensures deleted == old(table.GetRow(id)).Some?
      ensures table.entries == if deleted then Remove(old(table.entries), id) else old(table.entries)
    {
      var user := GetUserById(id);
      if user.None? {
        return false;
      }
      WithoutKeepsKeyedBy(table.entries, UserId, {id});
      table.DelRow(id);
      deleted := true;
    }
  }
}
