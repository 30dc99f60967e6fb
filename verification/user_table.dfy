/**
 The in-memory user collection of the `UserTable` component: the list the
 table shows, the add and edit branches of the form submit, delete, the
 name search and the decision to announce that a search found nobody.
 Every operation takes the current list and returns the next one; the
 component's `setUsers` is the caller storing that result.
 */
module UserTable {
  import opened Seqs
  import Text

  datatype Address = Address(street: string, city: string, zipcode: string)

  /** The fields of a record that no operation here inspects. */
  datatype Payload = Payload(
    username: string,
    email: string,
    phone: string,
    website: string,
    companyName: string,
    address: Address)

  /** One row of the table. Identifiers are expected to be unique, but nothing enforces it. */
  datatype User = User(id: int, name: string, rest: Payload)

  /** The identifiers of `users`, position by position. */
  function Ids(users: seq<User>): (ids: seq<int>)
    ensures |ids| == |users|
    ensures forall i :: 0 <= i < |users| ==> ids[i] == users[i].id
  {
    seq(|users|, i requires 0 <= i < |users| => users[i].id)
  }

  /** An identifier is absent exactly when no position carries it. */
  lemma AbsentId(users: seq<User>, id: int)
    ensures id !in Ids(users) <==> forall i :: 0 <= i < |users| ==> users[i].id != id
  {
    if id in Ids(users) {
      var k :| 0 <= k < |users| && Ids(users)[k] == id;
    }
  }

  /** No two positions of `users` carry the same identifier. */
  ghost predicate UniqueIds(users: seq<User>) {
    forall i, j :: 0 <= i < j < |users| ==> users[i].id != users[j].id
  }

  /** The selection predicate of delete: records whose identifier differs from `id`. */
  function LacksId(id: int): User -> bool {
    (u: User) => u.id != id
  }

  /** Records whose identifier equals `id`. */
  function HasId(id: int): User -> bool {
    (u: User) => u.id == id
  }

  /** How many records of `users` carry identifier `id`. */
  function CountId(users: seq<User>, id: int): nat {
    Count(users, HasId(id))
  }

  // ---------------------------------------------------------------------------
  // Form submit

  /**
   The add branch of the form submit: the submitted record, with its
   identifier replaced by the list length plus one, goes on the end.
   */
  function Add(users: seq<User>, data: User): (r: seq<User>)
    ensures |r| == |users| + 1
    ensures r[..|users|] == users
    ensures r[|users|].id == |users| + 1
    ensures r[|users|].name == data.name && r[|users|].rest == data.rest
  {
    users + [data.(id := |users| + 1)]
  }

  /**
   The edit branch of the form submit: every record whose identifier equals
   the submitted record's is replaced by the submitted record; the rest stay
   where they are. No match leaves the list as it was.
   */
  function Update(users: seq<User>, data: User): (r: seq<User>)
    ensures |r| == |users|
    ensures forall i :: 0 <= i < |users| && users[i].id == data.id ==> r[i] == data
    ensures forall i :: 0 <= i < |users| && users[i].id != data.id ==> r[i] == users[i]
    ensures data.id !in Ids(users) ==> r == users
  {
    if users == [] then []
    else
      var tail := Update(users[1..], data);
      UpdateCons(users, data, tail);
      [if users[0].id == data.id then data else users[0]] + tail
  }

  /** The step of `Update`: the edited head followed by the edited rest is the edited list. */
  lemma UpdateCons(users: seq<User>, data: User, tail: seq<User>)
    requires users != [] && |tail| == |users| - 1
    requires forall i :: 0 <= i < |tail| && users[1..][i].id == data.id ==> tail[i] == data
    requires forall i :: 0 <= i < |tail| && users[1..][i].id != data.id ==> tail[i] == users[1..][i]
    ensures var r := [if users[0].id == data.id then data else users[0]] + tail;
      && (forall i :: 0 <= i < |users| && users[i].id == data.id ==> r[i] == data)
      && (forall i :: 0 <= i < |users| && users[i].id != data.id ==> r[i] == users[i])
      && (data.id !in Ids(users) ==> r == users)
  {
    var r := [if users[0].id == data.id then data else users[0]] + tail;
    forall i | 1 <= i < |users|
      ensures users[i] == users[1..][i - 1] && r[i] == tail[i - 1]
    {
    }
    AbsentId(users, data.id);
  }

  /** The form submit: the edit branch when the form was opened for editing, the add branch otherwise. */
  function Submit(users: seq<User>, isEditMode: bool, data: User): (r: seq<User>)
    ensures isEditMode ==> |r| == |users| && Ids(r) == Ids(users)
    ensures !isEditMode ==> |r| == |users| + 1 && r[..|users|] == users && r[|users|].id == |users| + 1
  {
    if isEditMode then
      UpdateKeepsIds(users, data);
      Update(users, data)
    else
      Add(users, data)
  }

  // ---------------------------------------------------------------------------
  // Delete

  /**
   Delete: every record carrying identifier `id` goes, every other record
   stays in its relative order, and the list shrinks by the number of
   matches. An identifier that is not present changes nothing.
   */
  function Delete(users: seq<User>, id: int): (r: seq<User>)
    ensures forall i :: 0 <= i < |r| ==> r[i].id != id
    ensures forall u {:trigger u in r} :: u in r <==> u in users && u.id != id
    ensures forall u {:trigger multiset(r)[u]} :: multiset(r)[u] == if u.id == id then 0 else multiset(users)[u]
    ensures IsSubsequence(r, users)
    ensures |r| == |users| - CountId(users, id)
    ensures id !in Ids(users) ==> r == users
  {
    var r := Keep(users, LacksId(id));
    CountComplement(users, LacksId(id), HasId(id));
    assert id !in Ids(users) ==> forall i :: 0 <= i < |users| ==> LacksId(id)(users[i]) by {
      if id !in Ids(users) {
        forall i | 0 <= i < |users| ensures users[i].id != id {
          assert Ids(users)[i] == users[i].id;
        }
      }
    }
    r
  }

  // ---------------------------------------------------------------------------
  // Search

  /** The search predicate: the lower-cased name contains the lower-cased search text. */
  function NameMatches(term: string): User -> bool {
    (u: User) => Text.Contains(Text.Lower(u.name), Text.Lower(term))
  }

  /**
   The rows the table shows for search text `term`: exactly the records whose
   name contains `term` ignoring case, in list order.
   */
  function Search(users: seq<User>, term: string): (r: seq<User>)
    ensures forall u {:trigger u in r} :: u in r <==> u in users && Text.Contains(Text.Lower(u.name), Text.Lower(term))
    ensures forall u {:trigger multiset(r)[u]} :: multiset(r)[u] == if Text.Contains(Text.Lower(u.name), Text.Lower(term)) then multiset(users)[u] else 0
    ensures IsSubsequence(r, users)
    ensures |r| == Count(users, NameMatches(term))
  {
    Keep(users, NameMatches(term))
  }

  /**
   The "No such user found" decision of the search box: it fires exactly
   when no record's name contains the search text (ignoring case) and the
   search text holds at least one non-whitespace character.
   */
  function NoMatchNotice(users: seq<User>, searchValue: string): (b: bool)
    ensures b <==>
      (forall i :: 0 <= i < |users| ==> !Text.Contains(Text.Lower(users[i].name), Text.Lower(searchValue)))
      && (exists k :: 0 <= k < |searchValue| && !Text.IsWhitespace(searchValue[k]))
  {
    var found := Search(users, searchValue);
    assert found == [] <==> forall i :: 0 <= i < |users| ==> !NameMatches(searchValue)(users[i]);
    |found| == 0 && Text.Trim(searchValue) != ""
  }

  // ---------------------------------------------------------------------------
  // Properties relating the operations

  /** The identifier column survives an edit: matched positions get a record with the same identifier. */
  lemma UpdateKeepsIds(users: seq<User>, data: User)
    ensures Ids(Update(users, data)) == Ids(users)
  {
  }

  /** Submitting the same edit twice is the same as submitting it once. */
  lemma UpdateIdempotent(users: seq<User>, data: User)
    ensures Update(Update(users, data), data) == Update(users, data)
  {
  }

  /** The edited record is in the result exactly when its identifier was in the list. */
  lemma UpdateInstallsData(users: seq<User>, data: User)
    ensures data in Update(users, data) <==> data.id in Ids(users)
  {
    var r := Update(users, data);
    if data.id in Ids(users) {
      var k :| 0 <= k < |users| && Ids(users)[k] == data.id;
      assert r[k] == data;
    }
    if data in r {
      var k :| 0 <= k < |r| && r[k] == data;
      assert Ids(users)[k] == data.id;
    }
  }

  /** With unique identifiers, deleting a present identifier removes exactly one record. */
  lemma {:induction false} DeleteUniqueRemovesOne(users: seq<User>, id: int)
    requires UniqueIds(users)
    requires id in Ids(users)
    ensures |Delete(users, id)| == |users| - 1
  {
    CountIdUnique(users, id);
  }

  /** With unique identifiers, a present identifier is counted once. */
  lemma {:induction false} CountIdUnique(users: seq<User>, id: int)
    requires UniqueIds(users)
    requires id in Ids(users)
    ensures CountId(users, id) == 1
  {
    var tail := users[1..];
    assert UniqueIds(tail) by {
      forall i, j | 0 <= i < j < |tail| ensures tail[i].id != tail[j].id {
        assert tail[i] == users[i + 1] && tail[j] == users[j + 1];
      }
    }
    if users[0].id == id {
      forall i | 0 <= i < |tail| ensures !HasId(id)(tail[i]) {
        assert tail[i] == users[i + 1];
      }
    } else {
      var k :| 0 <= k < |users| && Ids(users)[k] == id;
      assert Ids(tail)[k - 1] == id;
      CountIdUnique(tail, id);
    }
  }

  /** Deleting the same identifier twice is the same as deleting it once. */
  lemma DeleteIdempotent(users: seq<User>, id: int)
    ensures Delete(Delete(users, id), id) == Delete(users, id)
  {
    var r := Delete(users, id);
    assert forall i :: 0 <= i < |r| ==> Ids(r)[i] != id;
  }

  /**
   Add keeps identifiers unique exactly when no record already carries the
   new identifier, the list length plus one.
   */
  lemma AddUniqueIff(users: seq<User>, data: User)
    requires UniqueIds(users)
    ensures UniqueIds(Add(users, data)) <==> |users| + 1 !in Ids(users)
  {
    var r := Add(users, data);
    if |users| + 1 in Ids(users) {
      var k :| 0 <= k < |users| && Ids(users)[k] == |users| + 1;
      assert r[k].id == r[|users|].id;
    }
  }

  /**
   A list loaded with identifiers 1..n, one per position, stays collision-free
   under Add.
   */
  lemma AddAfterLoadUnique(users: seq<User>, data: User)
    requires forall i :: 0 <= i < |users| ==> users[i].id == i + 1
    ensures UniqueIds(Add(users, data))
  {
    AddUniqueIff(users, data);
  }

  /**
   The collision the length-based identifier allows: from identifiers 1..n,
   deleting any identifier other than n and then adding a record gives the
   new record identifier n, which the last original record still carries.
   */
  lemma DeleteThenAddCollides(users: seq<User>, k: int, data: User)
    requires forall i :: 0 <= i < |users| ==> users[i].id == i + 1
    requires 1 <= k < |users|
    ensures !UniqueIds(Add(Delete(users, k), data))
  {
    var n := |users|;
    assert UniqueIds(users);
    assert Ids(users)[k - 1] == k;
    DeleteUniqueRemovesOne(users, k);
    var d := Delete(users, k);
    assert users[n - 1] in d;
    var j :| 0 <= j < |d| && d[j] == users[n - 1];
    var r := Add(d, data);
    assert r[j].id == n && r[|d|].id == n;
  }

  /** Search text that lower-cases the same way selects the same rows. */
  lemma SearchCaseInsensitive(users: seq<User>, a: string, b: string)
    requires Text.Lower(a) == Text.Lower(b)
    ensures Search(users, a) == Search(users, b)
  {
    KeepAgreeing(users, NameMatches(a), NameMatches(b));
  }

  /** Searching for the lower-cased text selects the same rows as the text itself. */
  lemma SearchLowerInvariant(users: seq<User>, term: string)
    ensures Search(users, Text.Lower(term)) == Search(users, term)
  {
    Text.LowerIdempotent(term);
    SearchCaseInsensitive(users, Text.Lower(term), term);
  }

  /** An empty search box shows the whole list in its order. */
  lemma SearchEmptyShowsAll(users: seq<User>)
    ensures Search(users, "") == users
  {
    assert Text.Lower("") == "";
  }

  /**
   The search result is exactly determined by its specification: any
   subsequence of the list made of matching records and as long as the number
   of matching records is the search result.
   */
  lemma SearchCharacterised(users: seq<User>, term: string, t: seq<User>)
    requires IsSubsequence(t, users)
    requires forall i :: 0 <= i < |t| ==> Text.Contains(Text.Lower(t[i].name), Text.Lower(term))
    requires |t| == Count(users, NameMatches(term))
    ensures t == Search(users, term)
  {
    KeepIsUnique(users, NameMatches(term), t);
  }

  /** Whitespace-only search text never announces a miss, whatever the list holds. */
  lemma BlankSearchIsSilent(users: seq<User>, searchValue: string)
    requires Text.IsBlank(searchValue)
    ensures !NoMatchNotice(users, searchValue)
  {
  }
}
