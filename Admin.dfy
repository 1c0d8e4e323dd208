/** The admin page (src/pages/Admin.jsx). It loads categories, nominees and
    nomination links from the server and stitches them into one list of
    categories, each with its nominees, plus a master list of nominees.
    After a create, rename or delete request succeeds, the page updates
    these two lists locally, without reloading them. */
module Admin {
  import opened Common

  datatype Nominee = Nominee(id: Id, name: string)

  /** A category as the server returns it. */
  datatype CategoryRecord = CategoryRecord(id: Id, name: string, description: Option<string>)

  /** A category as the page holds it: the record plus its nominees. */
  datatype Category = Category(id: Id, name: string, description: Option<string>, nominees: seq<Nominee>)

  /** A link of the many-to-many join between categories and nominees. */
  datatype Nomination = Nomination(categoryId: Id, nomineeId: Id)

  /** The page's two lists: `categories` and `allNominees`. */
  datatype AdminState = AdminState(categories: seq<Category>, allNominees: seq<Nominee>)

  /** How a request ended: a successful response with its body, a response
      with an error status, or a failure to reach the server (the request
      rejected, or its body was not JSON). */
  datatype Reply<T> = Ok(value: T) | HttpError(status: nat) | NetworkError

  function WithNominees(c: CategoryRecord, nominees: seq<Nominee>): Category {
    Category(c.id, c.name, c.description, nominees)
  }

  /** The input of a text prompt: `None` when cancelled. The page goes on
      only with a non-empty text. */
  predicate Provided(input: Option<string>) {
    input.Some? && input.value != ""
  }

  // =====================================================================
  // Stitching

  /** The nominee map once every record has been set under its id, in
      order: a later record with an id replaces an earlier one. */
  function NomineeIndex(nominees: seq<Nominee>): (index: map<Id, Nominee>)
    ensures forall id :: id in index ==> index[id].id == id && index[id] in nominees
    ensures forall n :: n in nominees ==> n.id in index
    decreases |nominees|
  {
    if nominees == [] then map[]
    else
      var last := nominees[|nominees| - 1];
      NomineeIndex(nominees[..|nominees| - 1])[last.id := last]
  }

  /** The keys of that map in the order a JavaScript `Map` lists them: the
      order in which each id was first set. */
  function KeyOrder(nominees: seq<Nominee>): (ids: seq<Id>)
    ensures forall id :: id in ids <==> id in NomineeIndex(nominees)
    ensures forall a, b :: 0 <= a < b < |ids| ==> ids[a] != ids[b]
    decreases |nominees|
  {
    if nominees == [] then []
    else
      var last := nominees[|nominees| - 1];
      var earlier := KeyOrder(nominees[..|nominees| - 1]);
      if last.id in earlier then earlier else earlier + [last.id]
  }

  /** Every listed key was set by some record. */
  lemma KeyHasRecord(nominees: seq<Nominee>, id: Id) returns (p: nat)
    requires id in KeyOrder(nominees)
    ensures p < |nominees| && nominees[p].id == id
  {
    var m := NomineeIndex(nominees)[id];
    p :| 0 <= p < |nominees| && nominees[p] == m;
  }

  /** A record with an id that is not yet a key of the prefix is not in the prefix. */
  lemma NewIdNotInPrefix(prefix: seq<Nominee>, id: Id, j: nat)
    requires id !in KeyOrder(prefix)
    requires j < |prefix|
    ensures prefix[j].id != id
  {
    assert prefix[j] in prefix;
  }

  /** A record carrying the key at position `b` is preceded by a record
      carrying the key at an earlier position `a`. */
  lemma {:induction false} KeyOrderFollowsFirstSetAt(nominees: seq<Nominee>, a: nat, b: nat, j: nat)
    requires a < b < |KeyOrder(nominees)|
    requires j < |nominees| && nominees[j].id == KeyOrder(nominees)[b]
    ensures exists i :: 0 <= i < j && nominees[i].id == KeyOrder(nominees)[a]
    decreases |nominees|
  {
    var prefix := nominees[..|nominees| - 1];
    var earlier := KeyOrder(prefix);
    if b < |earlier| {
      OldKeyCase(nominees, a, b, j);
    } else {
      NewKeyCase(nominees, a, b, j);
    }
  }

  /** The later key was already a key of the prefix. */
  lemma {:induction false} OldKeyCase(nominees: seq<Nominee>, a: nat, b: nat, j: nat)
    requires a < b < |KeyOrder(nominees)|
    requires j < |nominees| && nominees[j].id == KeyOrder(nominees)[b]
    requires b < |KeyOrder(nominees[..|nominees| - 1])|
    ensures exists i :: 0 <= i < j && nominees[i].id == KeyOrder(nominees)[a]
    decreases |nominees|, 0
  {
    var prefix := nominees[..|nominees| - 1];
    var earlier := KeyOrder(prefix);
    var last := nominees[|nominees| - 1];
    assert KeyOrder(nominees) == if last.id in earlier then earlier else earlier + [last.id];
    assert KeyOrder(nominees)[a] == earlier[a] && KeyOrder(nominees)[b] == earlier[b];
    var j' := j;
    if j == |nominees| - 1 {
      j' := KeyHasRecord(prefix, earlier[b]);
    } else {
      assert prefix[j] == nominees[j];
    }
    KeyOrderFollowsFirstSetAt(prefix, a, b, j');
    var i :| 0 <= i < j' && prefix[i].id == earlier[a];
    assert nominees[i] == prefix[i];
  }

  /** The later key is the last record's id, first set by that record. */
  lemma NewKeyCase(nominees: seq<Nominee>, a: nat, b: nat, j: nat)
    requires a < b < |KeyOrder(nominees)|
    requires j < |nominees| && nominees[j].id == KeyOrder(nominees)[b]
    requires b >= |KeyOrder(nominees[..|nominees| - 1])|
    ensures exists i :: 0 <= i < j && nominees[i].id == KeyOrder(nominees)[a]
  {
    var prefix := nominees[..|nominees| - 1];
    var earlier := KeyOrder(prefix);
    var last := nominees[|nominees| - 1];
    assert KeyOrder(nominees) == if last.id in earlier then earlier else earlier + [last.id];
    assert last.id !in earlier && KeyOrder(nominees)[b] == last.id && KeyOrder(nominees)[a] == earlier[a];
    forall q | 0 <= q < |prefix| ensures nominees[q].id != last.id {
      assert prefix[q] == nominees[q];
      NewIdNotInPrefix(prefix, last.id, q);
    }
    assert j == |prefix|;
    var p := KeyHasRecord(prefix, earlier[a]);
    assert nominees[p] == prefix[p];
  }

  /** The key order is the order in which ids were first set. */
  lemma KeyOrderFollowsFirstSet(nominees: seq<Nominee>, a: nat, b: nat)
    requires a < b < |KeyOrder(nominees)|
    ensures forall j :: 0 <= j < |nominees| && nominees[j].id == KeyOrder(nominees)[b] ==>
                        exists i :: 0 <= i < j && nominees[i].id == KeyOrder(nominees)[a]
  {
    forall j | 0 <= j < |nominees| && nominees[j].id == KeyOrder(nominees)[b]
      ensures exists i :: 0 <= i < j && nominees[i].id == KeyOrder(nominees)[a]
    {
      KeyOrderFollowsFirstSetAt(nominees, a, b, j);
    }
  }

  /** The master list: the values of the nominee map in key order. */
  function UniqueNominees(nominees: seq<Nominee>): (r: seq<Nominee>)
    ensures |r| == |KeyOrder(nominees)|
    ensures forall k :: 0 <= k < |r| ==> r[k].id == KeyOrder(nominees)[k] && r[k] in nominees
  {
    var index := NomineeIndex(nominees);
    var order := KeyOrder(nominees);
    seq(|order|, k requires 0 <= k < |order| => index[order[k]])
  }

  /** The master list is in the order ids were first set: a record with the
      id of a later master entry is preceded by one with the id of an earlier entry. */
  lemma MasterListInFirstSetOrder(nominees: seq<Nominee>, a: nat, b: nat)
    requires a < b < |UniqueNominees(nominees)|
    ensures forall j :: 0 <= j < |nominees| && nominees[j].id == UniqueNominees(nominees)[b].id ==>
                        exists i :: 0 <= i < j && nominees[i].id == UniqueNominees(nominees)[a].id
  {
    KeyOrderFollowsFirstSet(nominees, a, b);
  }

  /** The nominees of category `c`: for every link of `c`, in link order,
      the nominee it names; a link naming an unknown nominee is dropped. */
  function LinkedNominees(links: seq<Nomination>, index: map<Id, Nominee>, c: Id): (r: seq<Nominee>)
    ensures |r| <= |links|
    decreases |links|
  {
    if links == [] then []
    else
      var last := links[|links| - 1];
      var earlier := LinkedNominees(links[..|links| - 1], index, c);
      if last.categoryId == c && last.nomineeId in index then earlier + [index[last.nomineeId]]
      else earlier
  }

  /** The state the page holds after loading. */
  function Stitched(cats: seq<CategoryRecord>, nominees: seq<Nominee>, links: seq<Nomination>): (st: AdminState)
    ensures |st.categories| == |cats|
    ensures forall k :: 0 <= k < |cats| ==>
              st.categories[k].id == cats[k].id && st.categories[k].name == cats[k].name &&
              st.categories[k].description == cats[k].description
  {
    var index := NomineeIndex(nominees);
    AdminState(
      seq(|cats|, k requires 0 <= k < |cats| => WithNominees(cats[k], LinkedNominees(links, index, cats[k].id))),
      UniqueNominees(nominees))
  }

  /** Sets every nominee record under its id, in order, recording the order
      in which ids were first set. */
  method BuildNomineeMap(nominees: seq<Nominee>) returns (nomineeMap: map<Id, Nominee>, keys: seq<Id>)
    ensures nomineeMap == NomineeIndex(nominees)
    ensures keys == KeyOrder(nominees)
  {
    nomineeMap, keys := map[], [];
    var i := 0;
    while i < |nominees|
      invariant 0 <= i <= |nominees|
      invariant nomineeMap == NomineeIndex(nominees[..i])
      invariant keys == KeyOrder(nominees[..i])
    {
      var n := nominees[i];
      IndexStep(nominees, i);
      if n.id !in nomineeMap {
        keys := keys + [n.id];
      }
      nomineeMap := nomineeMap[n.id := n];
      assert nomineeMap == NomineeIndex(nominees[..i + 1]) && keys == KeyOrder(nominees[..i + 1]);
      i := i + 1;
    }
    assert nominees[..i] == nominees;
  }

  /** Setting one more record extends the map and, for a new id, the key order. */
  lemma IndexStep(nominees: seq<Nominee>, i: nat)
    requires i < |nominees|
    ensures NomineeIndex(nominees[..i + 1]) == NomineeIndex(nominees[..i])[nominees[i].id := nominees[i]]
    ensures KeyOrder(nominees[..i + 1]) ==
              if nominees[i].id in NomineeIndex(nominees[..i]) then KeyOrder(nominees[..i])
              else KeyOrder(nominees[..i]) + [nominees[i].id]
  {
    assert nominees[..i + 1][..i] == nominees[..i];
    var earlier := KeyOrder(nominees[..i]);
    assert nominees[i].id in earlier <==> nominees[i].id in NomineeIndex(nominees[..i]);
  }

  /** Groups the links by category: a category gets an entry on its first
      link, and each link naming a known nominee appends that nominee. */
  method GroupLinks(nominations: seq<Nomination>, nomineeMap: map<Id, Nominee>)
    returns (catNomineeLinks: map<Id, seq<Nominee>>)
    ensures forall c :: c in catNomineeLinks <==> exists t :: 0 <= t < |nominations| && nominations[t].categoryId == c
    ensures forall c :: c in catNomineeLinks ==> catNomineeLinks[c] == LinkedNominees(nominations, nomineeMap, c)
  {
    catNomineeLinks := map[];
    var j := 0;
    while j < |nominations|
      invariant 0 <= j <= |nominations|
      invariant forall c :: c in catNomineeLinks <==> exists t :: 0 <= t < j && nominations[t].categoryId == c
      invariant forall c :: c in catNomineeLinks ==>
                  catNomineeLinks[c] == LinkedNominees(nominations[..j], nomineeMap, c)
    {
      var link := nominations[j];
      assert nominations[..j + 1][..j] == nominations[..j];
      if link.categoryId !in catNomineeLinks {
        NoLinksNoNominees(nominations[..j], nomineeMap, link.categoryId);
        catNomineeLinks := catNomineeLinks[link.categoryId := []];
      }
      if link.nomineeId in nomineeMap {
        catNomineeLinks := catNomineeLinks[link.categoryId :=
                                             catNomineeLinks[link.categoryId] + [nomineeMap[link.nomineeId]]];
      }
      j := j + 1;
    }
    assert nominations[..j] == nominations;
  }

  /** Loads the page's state: attaches to every category its grouped list
      (empty when it has no link) and lists the map's values in key order. */
  method Stitch(cats: seq<CategoryRecord>, nominees: seq<Nominee>, nominations: seq<Nomination>)
    returns (st: AdminState)
    ensures st == Stitched(cats, nominees, nominations)
  {
    var nomineeMap, keys := BuildNomineeMap(nominees);
    var catNomineeLinks := GroupLinks(nominations, nomineeMap);
    forall k | 0 <= k < |cats| && cats[k].id !in catNomineeLinks
      ensures LinkedNominees(nominations, nomineeMap, cats[k].id) == []
    {
      NoLinksNoNominees(nominations, nomineeMap, cats[k].id);
    }
    var withNominees := seq(|cats|, k requires 0 <= k < |cats| =>
                              WithNominees(cats[k], if cats[k].id in catNomineeLinks then catNomineeLinks[cats[k].id] else []));
    var unique := seq(|keys|, k requires 0 <= k < |keys| => nomineeMap[keys[k]]);
    st := AdminState(withNominees, unique);
  }

  lemma {:induction false} NoLinksNoNominees(links: seq<Nomination>, index: map<Id, Nominee>, c: Id)
    requires forall t :: 0 <= t < |links| ==> links[t].categoryId != c
    ensures LinkedNominees(links, index, c) == []
    decreases |links|
  {
    if links != [] {
      NoLinksNoNominees(links[..|links| - 1], index, c);
    }
  }

  /** A nominee is listed under `c` exactly when some link of `c` names a
      known nominee id whose record it is. */
  lemma {:induction false} LinkedNomineesMembership(links: seq<Nomination>, index: map<Id, Nominee>, c: Id, n: Nominee)
    ensures n in LinkedNominees(links, index, c) <==>
            exists t :: 0 <= t < |links| && links[t].categoryId == c && links[t].nomineeId in index &&
                        index[links[t].nomineeId] == n
    decreases |links|
  {
    if links != [] {
      var prefix := links[..|links| - 1];
      LinkedNomineesMembership(prefix, index, c, n);
      forall t | 0 <= t < |prefix| ensures prefix[t] == links[t] { }
    }
  }

  /** The list of a category follows link order: the links of an earlier
      batch contribute their nominees before those of a later one. */
  lemma {:induction false} LinkedNomineesFollowLinkOrder(earlier: seq<Nomination>, later: seq<Nomination>,
                                                         index: map<Id, Nominee>, c: Id)
    ensures LinkedNominees(earlier + later, index, c) ==
            LinkedNominees(earlier, index, c) + LinkedNominees(later, index, c)
    decreases |later|
  {
    if later == [] {
      assert earlier + later == earlier;
    } else {
      var front := later[..|later| - 1];
      LinkedNomineesFollowLinkOrder(earlier, front, index, c);
      assert (earlier + later)[..|earlier + later| - 1] == earlier + front;
      assert (earlier + later)[|earlier + later| - 1] == later[|later| - 1];
    }
  }

  /** A record that no later record overrides. */
  ghost predicate IsLastWithId(nominees: seq<Nominee>, j: nat)
    requires j < |nominees|
  {
    forall j' :: j < j' < |nominees| ==> nominees[j'].id != nominees[j].id
  }

  lemma {:induction false} LaterRecordWins(nominees: seq<Nominee>, j: nat)
    requires j < |nominees| && IsLastWithId(nominees, j)
    ensures nominees[j].id in NomineeIndex(nominees) && NomineeIndex(nominees)[nominees[j].id] == nominees[j]
    decreases |nominees|
  {
    if j < |nominees| - 1 {
      var prefix := nominees[..|nominees| - 1];
      assert IsLastWithId(prefix, j) by {
        forall j' | j < j' < |prefix| ensures prefix[j'].id != prefix[j].id {
          assert prefix[j'] == nominees[j'];
        }
      }
      LaterRecordWins(prefix, j);
    }
  }

  /** The master list has one record per id. */
  lemma MasterListHasDistinctIds(nominees: seq<Nominee>)
    ensures forall a, b :: 0 <= a < b < |UniqueNominees(nominees)| ==>
                           UniqueNominees(nominees)[a].id != UniqueNominees(nominees)[b].id
  {
    var r := UniqueNominees(nominees);
    var order := KeyOrder(nominees);
    forall a, b | 0 <= a < b < |r| ensures r[a].id != r[b].id {
      assert r[a].id == order[a] && r[b].id == order[b];
    }
  }

  /** The master list holds a record for every id of the nominee list, and
      only records of that list. */
  lemma MasterListCoversEveryId(nominees: seq<Nominee>)
    ensures forall n :: n in nominees ==> exists m :: m in UniqueNominees(nominees) && m.id == n.id
    ensures forall m :: m in UniqueNominees(nominees) ==> m in nominees
  {
    var order := KeyOrder(nominees);
    var r := UniqueNominees(nominees);
    forall n | n in nominees ensures exists m :: m in r && m.id == n.id {
      var k :| 0 <= k < |order| && order[k] == n.id;
      assert r[k] in r;
    }
  }

  /** For a duplicated id the master list holds the record that comes last. */
  lemma MasterListKeepsLastRecord(nominees: seq<Nominee>, j: nat)
    requires j < |nominees| && IsLastWithId(nominees, j)
    ensures nominees[j] in UniqueNominees(nominees)
  {
    var order := KeyOrder(nominees);
    var r := UniqueNominees(nominees);
    LaterRecordWins(nominees, j);
    var k :| 0 <= k < |order| && order[k] == nominees[j].id;
    assert r[k] == nominees[j];
  }

  // =====================================================================
  // The page's invariant

  /** Master ids are distinct, and every nominee listed under a category is
      a record of the master list. */
  ghost predicate Consistent(st: AdminState) {
    && (forall a, b :: 0 <= a < b < |st.allNominees| ==> st.allNominees[a].id != st.allNominees[b].id)
    && (forall c, n :: c in st.categories && n in c.nominees ==> n in st.allNominees)
  }

  /** Loading establishes the invariant. */
  lemma StitchedIsConsistent(cats: seq<CategoryRecord>, nominees: seq<Nominee>, links: seq<Nomination>)
    ensures Consistent(Stitched(cats, nominees, links))
  {
    var st := Stitched(cats, nominees, links);
    var index := NomineeIndex(nominees);
    var order := KeyOrder(nominees);
    forall c, n | c in st.categories && n in c.nominees ensures n in st.allNominees {
      var k :| 0 <= k < |cats| && st.categories[k] == c;
      LinkedNomineesMembership(links, index, cats[k].id, n);
      var t :| 0 <= t < |links| && links[t].categoryId == cats[k].id && links[t].nomineeId in index &&
               index[links[t].nomineeId] == n;
      var p :| 0 <= p < |order| && order[p] == links[t].nomineeId;
      assert st.allNominees[p] == n;
    }
  }

  /** What a nominee or link fetch yields: its body, or nothing when the
      server answered with an error status. */
  function ListOrEmpty<T>(reply: Reply<seq<T>>): (r: seq<T>)
    ensures reply.Ok? ==> r == reply.value
    ensures !reply.Ok? ==> r == []
  {
    if reply.Ok? then reply.value else []
  }

  /** Loading the page from the replies of its three fetches. A category
      fetch that fails, or a fetch that cannot reach the server, leaves the
      lists as they were; an error status on the nominee or link fetch
      counts as an empty list. */
  function LoadPage(st: AdminState, cats: Reply<seq<CategoryRecord>>, nominees: Reply<seq<Nominee>>,
                    links: Reply<seq<Nomination>>): (r: AdminState)
    ensures !cats.Ok? || nominees.NetworkError? || links.NetworkError? ==> r == st
    ensures cats.Ok? && nominees.Ok? && links.Ok? ==> r == Stitched(cats.value, nominees.value, links.value)
  {
    if cats.Ok? && !nominees.NetworkError? && !links.NetworkError? then
      Stitched(cats.value, ListOrEmpty(nominees), ListOrEmpty(links))
    else st
  }

  lemma {:induction false} UnknownNomineesDropped(links: seq<Nomination>, c: Id)
    ensures LinkedNominees(links, map[], c) == []
    decreases |links|
  {
    if links != [] {
      UnknownNomineesDropped(links[..|links| - 1], c);
    }
  }

  /** Without a nominee list every category loads with no nominees. */
  lemma LoadWithoutNomineeList(st: AdminState, cats: seq<CategoryRecord>, status: nat, links: Reply<seq<Nomination>>)
    requires !links.NetworkError?
    ensures var r := LoadPage(st, Ok(cats), HttpError(status), links);
            r.allNominees == [] && |r.categories| == |cats| &&
            forall k :: 0 <= k < |cats| ==> r.categories[k] == WithNominees(cats[k], [])
  {
    forall k | 0 <= k < |cats| {
      UnknownNomineesDropped(ListOrEmpty(links), cats[k].id);
    }
  }

  /** Without the links every category loads with no nominees, while the
      master list is still built. */
  lemma LoadWithoutLinks(st: AdminState, cats: seq<CategoryRecord>, nominees: Reply<seq<Nominee>>, status: nat)
    requires !nominees.NetworkError?
    ensures var r := LoadPage(st, Ok(cats), nominees, HttpError(status));
            r.allNominees == UniqueNominees(ListOrEmpty(nominees)) && |r.categories| == |cats| &&
            forall k :: 0 <= k < |cats| ==> r.categories[k] == WithNominees(cats[k], [])
  {
  }

  /** Loading keeps the invariant, whichever way the fetches end. */
  lemma LoadPageKeepsConsistent(st: AdminState, cats: Reply<seq<CategoryRecord>>, nominees: Reply<seq<Nominee>>,
                                links: Reply<seq<Nomination>>)
    requires Consistent(st)
    ensures Consistent(LoadPage(st, cats, nominees, links))
  {
    if cats.Ok? && !nominees.NetworkError? && !links.NetworkError? {
      StitchedIsConsistent(cats.value, ListOrEmpty(nominees), ListOrEmpty(links));
    }
  }

  // =====================================================================
  // List updates

  /** Every entry with the id gets the new name; the rest is unchanged. */
  function RenameNomineeIn(s: seq<Nominee>, id: Id, newName: string): (r: seq<Nominee>)
    ensures |r| == |s|
    ensures forall k :: 0 <= k < |s| ==> r[k].id == s[k].id
    ensures forall k :: 0 <= k < |s| && s[k].id == id ==> r[k].name == newName
    ensures forall k :: 0 <= k < |s| && s[k].id != id ==> r[k] == s[k]
  {
    seq(|s|, k requires 0 <= k < |s| => if s[k].id == id then s[k].(name := newName) else s[k])
  }

  /** Every entry with the id is dropped; the others keep their order. */
  function RemoveNomineeFrom(s: seq<Nominee>, id: Id): (r: seq<Nominee>)
    ensures forall n :: n in r <==> n in s && n.id != id
  {
    if s == [] then []
    else if s[0].id == id then RemoveNomineeFrom(s[1..], id)
    else [s[0]] + RemoveNomineeFrom(s[1..], id)
  }

  /** Every entry without the id keeps all its copies; none with it is left. */
  lemma {:induction false} RemoveNomineeKeepsCopies(s: seq<Nominee>, id: Id)
    ensures forall n :: multiset(RemoveNomineeFrom(s, id))[n] == if n.id != id then multiset(s)[n] else 0
  {
    if s != [] {
      RemoveNomineeKeepsCopies(s[1..], id);
      assert s == [s[0]] + s[1..];
    }
  }

  lemma {:induction false} RemoveNomineeKeepsOrder(s: seq<Nominee>, id: Id)
    ensures IsSubsequence(RemoveNomineeFrom(s, id), s)
  {
    if s != [] {
      RemoveNomineeKeepsOrder(s[1..], id);
      if s[0].id != id {
        assert ([s[0]] + RemoveNomineeFrom(s[1..], id))[1..] == RemoveNomineeFrom(s[1..], id);
      }
    }
  }

  lemma {:induction false} RemoveAbsentNominee(s: seq<Nominee>, id: Id)
    requires forall n :: n in s ==> n.id != id
    ensures RemoveNomineeFrom(s, id) == s
  {
    if s != [] {
      RemoveAbsentNominee(s[1..], id);
      assert s == [s[0]] + s[1..];
    }
  }

  /** The category with the id gets the new name; the rest is unchanged. */
  function RenameCategoryIn(cats: seq<Category>, id: Id, newName: string): (r: seq<Category>)
    ensures |r| == |cats|
    ensures forall k :: 0 <= k < |cats| ==>
              r[k].id == cats[k].id && r[k].description == cats[k].description && r[k].nominees == cats[k].nominees
    ensures forall k :: 0 <= k < |cats| && cats[k].id == id ==> r[k].name == newName
    ensures forall k :: 0 <= k < |cats| && cats[k].id != id ==> r[k] == cats[k]
  {
    seq(|cats|, k requires 0 <= k < |cats| => if cats[k].id == id then cats[k].(name := newName) else cats[k])
  }

  /** The category with the id gets the description; the rest is unchanged. */
  function DescribeCategoryIn(cats: seq<Category>, id: Id, description: string): (r: seq<Category>)
    ensures |r| == |cats|
    ensures forall k :: 0 <= k < |cats| ==>
              r[k].id == cats[k].id && r[k].name == cats[k].name && r[k].nominees == cats[k].nominees
    ensures forall k :: 0 <= k < |cats| && cats[k].id == id ==> r[k].description == Some(description)
    ensures forall k :: 0 <= k < |cats| && cats[k].id != id ==> r[k] == cats[k]
  {
    seq(|cats|, k requires 0 <= k < |cats| =>
          if cats[k].id == id then cats[k].(description := Some(description)) else cats[k])
  }

  /** The category with the id is dropped; the others keep their order. */
  function RemoveCategoryFrom(cats: seq<Category>, id: Id): (r: seq<Category>)
    ensures forall c :: c in r <==> c in cats && c.id != id
  {
    if cats == [] then []
    else if cats[0].id == id then RemoveCategoryFrom(cats[1..], id)
    else [cats[0]] + RemoveCategoryFrom(cats[1..], id)
  }

  /** Every category without the id keeps all its copies; none with it is left. */
  lemma {:induction false} RemoveCategoryKeepsCopies(cats: seq<Category>, id: Id)
    ensures forall c :: multiset(RemoveCategoryFrom(cats, id))[c] == if c.id != id then multiset(cats)[c] else 0
  {
    if cats != [] {
      RemoveCategoryKeepsCopies(cats[1..], id);
      assert cats == [cats[0]] + cats[1..];
    }
  }

  lemma {:induction false} RemoveCategoryKeepsOrder(cats: seq<Category>, id: Id)
    ensures IsSubsequence(RemoveCategoryFrom(cats, id), cats)
  {
    if cats != [] {
      RemoveCategoryKeepsOrder(cats[1..], id);
      if cats[0].id != id {
        assert ([cats[0]] + RemoveCategoryFrom(cats[1..], id))[1..] == RemoveCategoryFrom(cats[1..], id);
      }
    }
  }

  lemma {:induction false} RemoveAbsentCategory(cats: seq<Category>, id: Id)
    requires forall c :: c in cats ==> c.id != id
    ensures RemoveCategoryFrom(cats, id) == cats
  {
    if cats != [] {
      RemoveAbsentCategory(cats[1..], id);
      assert cats == [cats[0]] + cats[1..];
    }
  }

  // =====================================================================
  // Handlers: the local update each one makes after its requests

  /** A new category is appended, listing every nominee of the master list. */
  function AddCategory(st: AdminState, created: Reply<CategoryRecord>, linksReached: bool): (r: AdminState)
    ensures !created.Ok? || !linksReached ==> r == st
    ensures created.Ok? && linksReached ==>
              r.allNominees == st.allNominees &&
              r.categories == st.categories + [WithNominees(created.value, st.allNominees)]
  {
    if created.Ok? && linksReached then
      st.(categories := st.categories + [WithNominees(created.value, st.allNominees)])
    else st
  }

  /** Sets the description of the selected category. */
  function AddDescription(st: AdminState, selected: Option<Id>, description: string, reply: Reply<()>): (r: AdminState)
    ensures selected.None? || !reply.Ok? ==> r == st
    ensures r.allNominees == st.allNominees
    ensures selected.Some? && reply.Ok? ==> r.categories == DescribeCategoryIn(st.categories, selected.value, description)
  {
    if selected.None? then st
    else if reply.Ok? && (exists c :: c in st.categories && c.id == selected.value) then
      st.(categories := DescribeCategoryIn(st.categories, selected.value, description))
    else
      assert reply.Ok? ==> DescribeCategoryIn(st.categories, selected.value, description) == st.categories;
      st
  }

  /** A new nominee is appended to the master list and to every category. */
  function AddNominee(st: AdminState, name: string, created: Reply<Nominee>, linksReached: bool): (r: AdminState)
    ensures name == "" || |st.categories| == 0 || !created.Ok? || !linksReached ==> r == st
    ensures name != "" && |st.categories| > 0 && created.Ok? && linksReached ==>
              r.allNominees == st.allNominees + [created.value] &&
              |r.categories| == |st.categories| &&
              forall k :: 0 <= k < |st.categories| ==>
                r.categories[k] == st.categories[k].(nominees := st.categories[k].nominees + [created.value])
  {
    if name == "" || |st.categories| == 0 then st
    else if created.Ok? && linksReached then
      var n := created.value;
      AdminState(
        seq(|st.categories|, k requires 0 <= k < |st.categories| =>
              st.categories[k].(nominees := st.categories[k].nominees + [n])),
        st.allNominees + [n])
    else st
  }

  /** Renames the category with the given id. */
  function EditCategory(st: AdminState, id: Id, newName: Option<string>, reply: Reply<()>): (r: AdminState)
    ensures !Provided(newName) || !reply.Ok? ==> r == st
    ensures Provided(newName) && reply.Ok? ==>
              r == st.(categories := RenameCategoryIn(st.categories, id, newName.value))
  {
    if !Provided(newName) then st
    else if reply.Ok? then st.(categories := RenameCategoryIn(st.categories, id, newName.value))
    else st
  }

  /** Drops the category with the given id. */
  function DeleteCategory(st: AdminState, id: Id, confirmed: bool, reply: Reply<()>): (r: AdminState)
    ensures !confirmed || !reply.Ok? ==> r == st
    ensures confirmed && reply.Ok? ==> r == st.(categories := RemoveCategoryFrom(st.categories, id))
  {
    if confirmed && reply.Ok? then st.(categories := RemoveCategoryFrom(st.categories, id)) else st
  }

  /** Renames the nominee in the master list and in every category list. */
  function EditNominee(st: AdminState, id: Id, newName: Option<string>, reply: Reply<()>): (r: AdminState)
    ensures !Provided(newName) || !reply.Ok? ==> r == st
    ensures Provided(newName) && reply.Ok? ==>
              r.allNominees == RenameNomineeIn(st.allNominees, id, newName.value) &&
              |r.categories| == |st.categories| &&
              forall k :: 0 <= k < |st.categories| ==>
                r.categories[k] == st.categories[k].(nominees := RenameNomineeIn(st.categories[k].nominees, id, newName.value))
  {
    if !Provided(newName) || !reply.Ok? then st
    else
      var name := newName.value;
      AdminState(
        seq(|st.categories|, k requires 0 <= k < |st.categories| =>
              st.categories[k].(nominees := RenameNomineeIn(st.categories[k].nominees, id, name))),
        RenameNomineeIn(st.allNominees, id, name))
  }

  /** Drops the nominee from the master list and from every category list. */
  function DeleteNominee(st: AdminState, id: Id, confirmed: bool, reply: Reply<()>): (r: AdminState)
    ensures !confirmed || !reply.Ok? ==> r == st
    ensures confirmed && reply.Ok? ==>
              r.allNominees == RemoveNomineeFrom(st.allNominees, id) &&
              |r.categories| == |st.categories| &&
              forall k :: 0 <= k < |st.categories| ==>
                r.categories[k] == st.categories[k].(nominees := RemoveNomineeFrom(st.categories[k].nominees, id))
  {
    if !confirmed || !reply.Ok? then st
    else
      AdminState(
        seq(|st.categories|, k requires 0 <= k < |st.categories| =>
              st.categories[k].(nominees := RemoveNomineeFrom(st.categories[k].nominees, id))),
        RemoveNomineeFrom(st.allNominees, id))
  }

  // =====================================================================
  // Every handler keeps the invariant

  lemma AddCategoryKeepsConsistent(st: AdminState, created: Reply<CategoryRecord>, linksReached: bool)
    requires Consistent(st)
    ensures Consistent(AddCategory(st, created, linksReached))
  {
    var r := AddCategory(st, created, linksReached);
    forall c, n | c in r.categories && n in c.nominees ensures n in r.allNominees {
      if c !in st.categories {
        assert c == WithNominees(created.value, st.allNominees);
      }
    }
  }

  lemma AddDescriptionKeepsConsistent(st: AdminState, selected: Option<Id>, description: string, reply: Reply<()>)
    requires Consistent(st)
    ensures Consistent(AddDescription(st, selected, description, reply))
  {
    var r := AddDescription(st, selected, description, reply);
    forall c, n | c in r.categories && n in c.nominees ensures n in r.allNominees {
      var k :| 0 <= k < |r.categories| && r.categories[k] == c;
      assert st.categories[k] in st.categories;
    }
  }

  /** The server gives a new nominee an id no existing nominee has. */
  lemma AddNomineeKeepsConsistent(st: AdminState, name: string, created: Reply<Nominee>, linksReached: bool)
    requires Consistent(st)
    requires created.Ok? ==> forall m :: m in st.allNominees ==> m.id != created.value.id
    ensures Consistent(AddNominee(st, name, created, linksReached))
  {
    var r := AddNominee(st, name, created, linksReached);
    if r != st {
      var n := created.value;
      forall c, m | c in r.categories && m in c.nominees ensures m in r.allNominees {
        var k :| 0 <= k < |r.categories| && r.categories[k] == c;
        assert st.categories[k] in st.categories;
        if m != n {
          assert m in st.categories[k].nominees;
        }
      }
      forall a, b | 0 <= a < b < |r.allNominees| ensures r.allNominees[a].id != r.allNominees[b].id {
        if b == |st.allNominees| {
          assert r.allNominees[a] in st.allNominees;
        }
      }
    }
  }

  lemma EditCategoryKeepsConsistent(st: AdminState, id: Id, newName: Option<string>, reply: Reply<()>)
    requires Consistent(st)
    ensures Consistent(EditCategory(st, id, newName, reply))
  {
    var r := EditCategory(st, id, newName, reply);
    forall c, n | c in r.categories && n in c.nominees ensures n in r.allNominees {
      var k :| 0 <= k < |r.categories| && r.categories[k] == c;
      assert st.categories[k] in st.categories;
    }
  }

  lemma DeleteCategoryKeepsConsistent(st: AdminState, id: Id, confirmed: bool, reply: Reply<()>)
    requires Consistent(st)
    ensures Consistent(DeleteCategory(st, id, confirmed, reply))
  {
  }

  lemma {:induction false} RenameKeepsMembership(s: seq<Nominee>, id: Id, newName: string, n: Nominee)
    requires n in s
    ensures (if n.id == id then n.(name := newName) else n) in RenameNomineeIn(s, id, newName)
  {
    var k :| 0 <= k < |s| && s[k] == n;
    assert RenameNomineeIn(s, id, newName)[k] == if n.id == id then n.(name := newName) else n;
  }

  lemma EditNomineeKeepsConsistent(st: AdminState, id: Id, newName: Option<string>, reply: Reply<()>)
    requires Consistent(st)
    ensures Consistent(EditNominee(st, id, newName, reply))
  {
    var r := EditNominee(st, id, newName, reply);
    if r != st {
      var name := newName.value;
      forall c, m | c in r.categories && m in c.nominees ensures m in r.allNominees {
        var k :| 0 <= k < |r.categories| && r.categories[k] == c;
        var before := st.categories[k].nominees;
        var p :| 0 <= p < |c.nominees| && c.nominees[p] == m;
        assert before[p] in before;
        assert st.categories[k] in st.categories;
        RenameKeepsMembership(st.allNominees, id, name, before[p]);
      }
    }
  }

  lemma DeleteNomineeKeepsConsistent(st: AdminState, id: Id, confirmed: bool, reply: Reply<()>)
    requires Consistent(st)
    ensures Consistent(DeleteNominee(st, id, confirmed, reply))
  {
    var r := DeleteNominee(st, id, confirmed, reply);
    if r != st {
      forall c, m | c in r.categories && m in c.nominees ensures m in r.allNominees {
        var k :| 0 <= k < |r.categories| && r.categories[k] == c;
        assert st.categories[k] in st.categories;
      }
      RemoveNomineeKeepsOrder(st.allNominees, id);
      SubsequenceKeepsDistinctIds(r.allNominees, st.allNominees);
    }
  }

  ghost predicate DistinctIds(s: seq<Nominee>) {
    forall a, b :: 0 <= a < b < |s| ==> s[a].id != s[b].id
  }

  lemma {:induction false} SubsequenceKeepsDistinctIds(a: seq<Nominee>, b: seq<Nominee>)
    requires IsSubsequence(a, b) && DistinctIds(b)
    ensures DistinctIds(a)
    decreases |b|
  {
    if a != [] {
      assert DistinctIds(b[1..]) by {
        forall x, y | 0 <= x < y < |b[1..]| ensures b[1..][x].id != b[1..][y].id {
          assert b[1..][x] == b[x + 1] && b[1..][y] == b[y + 1];
        }
      }
      if a[0] == b[0] && IsSubsequence(a[1..], b[1..]) {
        SubsequenceKeepsDistinctIds(a[1..], b[1..]);
        SubsequenceKeepsMembers(a[1..], b[1..]);
        forall y | 0 < y < |a| ensures a[0].id != a[y].id {
          assert a[1..][y - 1] == a[y];
          assert a[y] in a[1..];
          var m :| 0 <= m < |b[1..]| && b[1..][m] == a[y];
          assert b[m + 1] == a[y];
        }
      } else {
        SubsequenceKeepsDistinctIds(a, b[1..]);
      }
    }
  }

  lemma {:induction false} SubsequenceKeepsMembers<T>(a: seq<T>, b: seq<T>)
    requires IsSubsequence(a, b)
    ensures forall x :: x in a ==> x in b
    decreases |b|
  {
    if a != [] {
      if a[0] == b[0] && IsSubsequence(a[1..], b[1..]) {
        SubsequenceKeepsMembers(a[1..], b[1..]);
        assert a == [a[0]] + a[1..];
      } else {
        SubsequenceKeepsMembers(a, b[1..]);
      }
    }
  }

  // =====================================================================
  // Deleting what was just added restores the state

  /** Deleting the nominee just added (the server gave it a fresh id)
      restores both lists. */
  lemma DeleteNomineeUndoesAddNominee(st: AdminState, name: string, n: Nominee)
    requires Consistent(st)
    requires forall m :: m in st.allNominees ==> m.id != n.id
    ensures DeleteNominee(AddNominee(st, name, Ok(n), true), n.id, true, Ok(())) == st
  {
    var added := AddNominee(st, name, Ok(n), true);
    var r := DeleteNominee(added, n.id, true, Ok(()));
    RemoveAbsentNominee(st.allNominees, n.id);
    RemoveAppended(st.allNominees, n);
    forall k | 0 <= k < |st.categories| ensures r.categories[k] == st.categories[k] {
      var own := st.categories[k].nominees;
      assert st.categories[k] in st.categories;
      RemoveAbsentNominee(own, n.id);
      RemoveAppended(own, n);
    }
    assert r.categories == st.categories;
  }

  lemma {:induction false} RemoveAppended(s: seq<Nominee>, n: Nominee)
    requires forall m :: m in s ==> m.id != n.id
    ensures RemoveNomineeFrom(s + [n], n.id) == s
  {
    var t := s + [n];
    if s == [] {
      assert t[1..] == [];
    } else {
      assert t[0] == s[0] && t[1..] == s[1..] + [n];
      assert s[0] in s;
      RemoveAppended(s[1..], n);
      assert RemoveNomineeFrom(t, n.id) == [s[0]] + RemoveNomineeFrom(t[1..], n.id);
      assert s == [s[0]] + s[1..];
    }
  }

  /** Deleting the category just added (the server gave it a fresh id)
      restores the category list. */
  lemma DeleteCategoryUndoesAddCategory(st: AdminState, c: CategoryRecord)
    requires forall other :: other in st.categories ==> other.id != c.id
    ensures DeleteCategory(AddCategory(st, Ok(c), true), c.id, true, Ok(())) == st
  {
    var cats := st.categories;
    RemoveAbsentCategory(cats, c.id);
    RemoveCategoryAppended(cats, WithNominees(c, st.allNominees));
  }

  lemma {:induction false} RemoveCategoryAppended(cats: seq<Category>, c: Category)
    requires forall other :: other in cats ==> other.id != c.id
    ensures RemoveCategoryFrom(cats + [c], c.id) == cats
  {
    var t := cats + [c];
    if cats == [] {
      assert t[1..] == [];
    } else {
      assert t[0] == cats[0] && t[1..] == cats[1..] + [c];
      assert cats[0] in cats;
      RemoveCategoryAppended(cats[1..], c);
      assert RemoveCategoryFrom(t, c.id) == [cats[0]] + RemoveCategoryFrom(t[1..], c.id);
      assert cats == [cats[0]] + cats[1..];
    }
  }
}
