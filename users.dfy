/** The user records of the grid and the pure computations the handlers of
    src/UserGrid.js apply to them: the mapper run on the fetched list, the
    search predicate and filter, the delete filter, the edit merge and the
    allocation of the next id. */
module Users {
  import opened Outcomes
  import opened Text
  import opened Sequences

  /** A user as the remote endpoint returns it. `companyName` stands for
      `company?.name`: None when the company or its name is absent. */
  datatype RawUser = RawUser(id: int, name: string, email: string, companyName: Option<string>)

  /** A row of the grid. */
  datatype User = User(id: int, firstName: string, lastName: string, email: string, department: string)

  /** The four fields of the add/edit form. */
  datatype FormValues = FormValues(firstName: string, lastName: string, email: string, department: string)

  const NoDepartment: string := "N/A"

  /** The form's `required` rules: none of the four fields is empty. */
  predicate RequiredFieldsFilled(values: FormValues)
  {
    values.firstName != [] && values.lastName != [] && values.email != [] && values.department != []
  }

  // ---------------------------------------------------------------------------
  // Record mapper

  /** Turns a fetched user into a row: the name is split on single spaces, the
      first piece is the first name unless it is empty (then the whole name),
      the other pieces joined by spaces are the last name, and a missing or
      empty company name becomes "N/A". */
  function MapUser(raw: RawUser): (u: User)
    ensures u.id == raw.id && u.email == raw.email
    ensures raw.companyName.Some? && raw.companyName.value != [] ==> u.department == raw.companyName.value
    ensures raw.companyName.None? || raw.companyName.value == [] ==> u.department == NoDepartment
  {
    var pieces := Split(raw.name, ' ');
    User(
      raw.id,
      if pieces[0] != [] then pieces[0] else raw.name,
      Join(pieces[1..], ' '),
      raw.email,
      if raw.companyName.Some? && raw.companyName.value != [] then raw.companyName.value else NoDepartment)
  }

  /** How the mapper divides a name into first and last name. */
  lemma MapUserName(raw: RawUser)
    ensures var u := MapUser(raw);
      && (' ' !in raw.name ==> u.firstName == raw.name && u.lastName == [])
      && (' ' in raw.name && raw.name[0] != ' ' ==>
            ' ' !in u.firstName && u.firstName + " " + u.lastName == raw.name)
      && (raw.name != [] && raw.name[0] == ' ' ==>
            u.firstName == raw.name && u.lastName == raw.name[1..])
  {
    var name := raw.name;
    var pieces := Split(name, ' ');
    SplitFirstEmpty(name, ' ');
    if ' ' in name {
      SplitHead(name, ' ');
      if name[0] == ' ' {
        assert name == [' '] + Join(pieces[1..], ' ');
        assert name[1..] == Join(pieces[1..], ' ');
      }
    } else {
      JoinSplit(name, ' ');
      assert pieces[1..] == [];
    }
  }

  /** `response.data.map(...)`: the mapper applied to every fetched user. */
  function MapUsers(raws: seq<RawUser>): (rows: seq<User>)
    ensures |rows| == |raws|
    ensures forall i :: 0 <= i < |raws| ==> rows[i] == MapUser(raws[i])
  {
    if raws == [] then [] else [MapUser(raws[0])] + MapUsers(raws[1..])
  }

  // ---------------------------------------------------------------------------
  // Search

  /** A row matches a lower-cased search string when its lower-cased first
      name, last name, email or department contains it. */
  predicate Matches(u: User, needle: string)
    ensures Matches(u, needle) <==>
      || Occurs(Lower(u.firstName), needle)
      || Occurs(Lower(u.lastName), needle)
      || Occurs(Lower(u.email), needle)
      || Occurs(Lower(u.department), needle)
  {
    || Contains(Lower(u.firstName), needle)
    || Contains(Lower(u.lastName), needle)
    || Contains(Lower(u.email), needle)
    || Contains(Lower(u.department), needle)
  }

  function MatcherFor(needle: string): User -> bool
  {
    (u: User) => Matches(u, needle)
  }

  /** The rows of `rows` that match `needle`, in order. */
  function SearchFilter(rows: seq<User>, needle: string): (r: seq<User>)
    ensures forall u :: multiset(r)[u] == if Matches(u, needle) then multiset(rows)[u] else 0
  {
    Filter(rows, MatcherFor(needle))
  }

  /** The search result is an order-preserving subsequence of the list holding
      exactly the rows that match, each as often as in the list. */
  lemma SearchFilterContents(rows: seq<User>, needle: string)
    ensures IsSubseq(SearchFilter(rows, needle), rows)
    ensures forall u :: u in SearchFilter(rows, needle) <==> u in rows && Matches(u, needle)
    ensures forall u :: multiset(SearchFilter(rows, needle))[u] ==
                        (if Matches(u, needle) then multiset(rows)[u] else 0)
  {
    FilterSubseq(rows, MatcherFor(needle));
    var r := SearchFilter(rows, needle);
    forall u
      ensures u in r <==> u in rows && Matches(u, needle)
    {
      if u in r {
        var i :| 0 <= i < |r| && r[i] == u;
      }
      if u in rows && Matches(u, needle) {
        var i :| 0 <= i < |rows| && rows[i] == u;
      }
    }
  }

  /** Searching the result of a search again with the same needle changes nothing. */
  lemma SearchFilterIdempotent(rows: seq<User>, needle: string)
    ensures SearchFilter(SearchFilter(rows, needle), needle) == SearchFilter(rows, needle)
  {
    FilterIdempotent(rows, MatcherFor(needle));
  }

  /** The empty search string shows the whole list, in order. */
  lemma SearchEmptyShowsAll(rows: seq<User>)
    ensures SearchFilter(rows, []) == rows
  {
    forall u | u in rows
      ensures MatcherFor([])(u)
    {
      ContainsEmpty(Lower(u.firstName));
    }
    FilterKeepsAll(rows, MatcherFor([]));
  }

  // ---------------------------------------------------------------------------
  // Delete

  function IdOtherThan(id: int): User -> bool
  {
    (u: User) => u.id != id
  }

  /** `rows.filter((user) => user.id !== id)`. */
  function WithoutId(rows: seq<User>, id: int): (r: seq<User>)
    ensures forall u :: multiset(r)[u] == if u.id != id then multiset(rows)[u] else 0
  {
    Filter(rows, IdOtherThan(id))
  }

  /** Deleting keeps, in their relative order and as often as they occur,
      exactly the rows with another id; it changes nothing when the id is absent. */
  lemma WithoutIdContents(rows: seq<User>, id: int)
    ensures IsSubseq(WithoutId(rows, id), rows)
    ensures forall u :: u in WithoutId(rows, id) <==> u in rows && u.id != id
    ensures forall u :: multiset(WithoutId(rows, id))[u] == if u.id != id then multiset(rows)[u] else 0
    ensures (forall u :: u in rows ==> u.id != id) ==> WithoutId(rows, id) == rows
  {
    var p := IdOtherThan(id);
    FilterSubseq(rows, p);
    var r := WithoutId(rows, id);
    forall u
      ensures u in r <==> u in rows && u.id != id
    {
      if u in r {
        var i :| 0 <= i < |r| && r[i] == u;
      }
      if u in rows && u.id != id {
        var i :| 0 <= i < |rows| && rows[i] == u;
      }
    }
    if forall u :: u in rows ==> u.id != id {
      FilterKeepsAll(rows, p);
    }
  }

  /** Deleting the same id from a list and from a subsequence of it leaves a
      subsequence. */
  lemma WithoutIdKeepsSubseq(view: seq<User>, rows: seq<User>, id: int)
    requires IsSubseq(view, rows)
    ensures IsSubseq(WithoutId(view, id), WithoutId(rows, id))
  {
    FilterKeepsSubseq(view, rows, IdOtherThan(id));
  }

  // ---------------------------------------------------------------------------
  // Ids

  /** No two rows share an id. */
  ghost predicate UniqueIds(rows: seq<User>)
  {
    forall i, j :: 0 <= i < j < |rows| ==> rows[i].id != rows[j].id
  }

  /** A subsequence of a list with distinct ids has distinct ids. */
  lemma {:induction false} SubseqUniqueIds(a: seq<User>, b: seq<User>)
    requires IsSubseq(a, b) && UniqueIds(b)
    ensures UniqueIds(a)
    decreases |b|
  {
    if a != [] {
      if a[0] == b[0] && IsSubseq(a[1..], b[1..]) {
        SubseqUniqueIds(a[1..], b[1..]);
        SubseqMembers(a[1..], b[1..]);
        forall j | 0 < j < |a|
          ensures a[0].id != a[j].id
        {
          assert a[j] == a[1..][j - 1] && a[1..][j - 1] in a[1..];
          var k :| 0 <= k < |b[1..]| && b[1..][k] == a[j];
          assert b[k + 1] == a[j];
        }
        forall i, j | 0 <= i < j < |a|
          ensures a[i].id != a[j].id
        {
          if i > 0 {
            assert a[i] == a[1..][i - 1] && a[j] == a[1..][j - 1];
          }
        }
      } else {
        assert UniqueIds(b[1..]) by {
          forall i, j | 0 <= i < j < |b[1..]|
            ensures b[1..][i].id != b[1..][j].id
          {
            assert b[1..][i] == b[i + 1] && b[1..][j] == b[j + 1];
          }
        }
        SubseqUniqueIds(a, b[1..]);
      }
    }
  }

  function Max(a: int, b: int): int
  {
    if a >= b then a else b
  }

  /** `rows.reduce((max, user) => Math.max(max, user.id), acc)`: the largest of
      `acc` and the ids of `rows`. */
  function MaxIdFrom(acc: int, rows: seq<User>): (m: int)
    decreases rows
    ensures acc <= m
    ensures forall i :: 0 <= i < |rows| ==> rows[i].id <= m
    ensures m == acc || exists i :: 0 <= i < |rows| && rows[i].id == m
  {
    if rows == [] then acc
    else MaxIdFrom(Max(acc, rows[0].id), rows[1..])
  }

  /** The id given to an added user: one more than the largest id, counting
      from 0. */
  function NextId(rows: seq<User>): (id: int)
    ensures id >= 1
    ensures forall u :: u in rows ==> u.id < id
  {
    MaxIdFrom(0, rows) + 1
  }

  /** `{ ...response.data, id: highestId + 1 }` where the response echoes the
      submitted form values: any id the server sent is replaced. */
  function NewUser(rows: seq<User>, values: FormValues): (u: User)
    ensures forall v :: v in rows ==> v.id < u.id
    ensures u.firstName == values.firstName && u.lastName == values.lastName
    ensures u.email == values.email && u.department == values.department
  {
    User(NextId(rows), values.firstName, values.lastName, values.email, values.department)
  }

  /** Appending the new user keeps ids distinct. */
  lemma AppendNewUserUniqueIds(rows: seq<User>, values: FormValues)
    requires UniqueIds(rows)
    ensures UniqueIds(rows + [NewUser(rows, values)])
  {
    var r := rows + [NewUser(rows, values)];
    forall i, j | 0 <= i < j < |r|
      ensures r[i].id != r[j].id
    {
      if j == |rows| {
        assert r[i] == rows[i] && rows[i] in rows;
      } else {
        assert r[i] == rows[i] && r[j] == rows[j];
      }
    }
  }

  // ---------------------------------------------------------------------------
  // Edit

  /** `{ ...user, ...values }`: the form fields overwrite the row's, the id stays. */
  function Merge(u: User, values: FormValues): (m: User)
    ensures m.id == u.id
    ensures m.firstName == values.firstName && m.lastName == values.lastName
    ensures m.email == values.email && m.department == values.department
  {
    u.(firstName := values.firstName, lastName := values.lastName,
       email := values.email, department := values.department)
  }

  /** `rows.map((user) => user.id === id ? { ...user, ...values } : user)`. */
  function ApplyEdit(rows: seq<User>, id: int, values: FormValues): (r: seq<User>)
    ensures |r| == |rows|
    ensures forall i :: 0 <= i < |rows| ==> r[i].id == rows[i].id
    ensures forall i :: 0 <= i < |rows| && rows[i].id != id ==> r[i] == rows[i]
    ensures forall i :: 0 <= i < |rows| && rows[i].id == id ==>
      && r[i].firstName == values.firstName && r[i].lastName == values.lastName
      && r[i].email == values.email && r[i].department == values.department
  {
    if rows == [] then []
    else [if rows[0].id == id then Merge(rows[0], values) else rows[0]] + ApplyEdit(rows[1..], id, values)
  }

  /** Editing never changes the ids, so they stay distinct. */
  lemma ApplyEditUniqueIds(rows: seq<User>, id: int, values: FormValues)
    requires UniqueIds(rows)
    ensures UniqueIds(ApplyEdit(rows, id, values))
  {
  }

  /** A form that passed the `required` rules yields rows with all four fields
      filled, whether it adds a user or edits one. */
  lemma ValidatedFormFillsRows(rows: seq<User>, id: int, values: FormValues)
    requires RequiredFieldsFilled(values)
    ensures var n := NewUser(rows, values);
      n.firstName != [] && n.lastName != [] && n.email != [] && n.department != []
    ensures forall u :: u in ApplyEdit(rows, id, values) && u.id == id ==>
      u.firstName != [] && u.lastName != [] && u.email != [] && u.department != []
  {
  }
}
