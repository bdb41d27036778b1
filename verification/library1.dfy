/** The first library service, LibraryManagement.ts: copies are filed by
    book id, issuing and reserving are guarded by the copy's own fields, a
    late return costs a flat 100, and a separate notifier keeps, per book
    id, the list of members to tell when it becomes available.

    Book objects live in a store addressed by `BookRef`; the service's
    table refers to them. Members are told apart by id. The clock is the
    parameter `now`, in milliseconds. */
module Library1 {
  import opened Wrappers
  import opened JsNumbers
  import opened Seqs
  import OM = OrderedMap

  type BookRef = nat
  type BookId = string
  type MemberId = string

  /** The flat fine for an overdue return. */
  const OverdueFine: int := 100
  /** A copy's due date is fixed when the copy is made, ten days on. */
  const DueAfterMs: int := 10 * DayMs

  datatype BookDetails = BookDetails(
    id: BookId,
    title: string,
    author: string,
    publicationDate: int,
    rackNumber: string,
    barcode: string)

  datatype Book = Book(details: BookDetails, reservedTo: Option<MemberId>, issuedTo: Option<MemberId>, dueDate: int)

  /** The `Book` constructor with its defaults: neither reserved nor
      issued, due ten days after it was made. */
  function NewBook(d: BookDetails, createdAt: int): (b: Book)
    ensures !IsReserved(b) && b.issuedTo.None?
    ensures !IsOverdue(b, createdAt + DueAfterMs) && IsOverdue(b, createdAt + DueAfterMs + 1)
  {
    Book(d, None, None, createdAt + DueAfterMs)
  }

  /** `isReserved`. */
  predicate IsReserved(b: Book)
  {
    b.reservedTo.Some?
  }

  /** `isOverdue`: the due date lies before the present. */
  predicate IsOverdue(b: Book, now: int)
  {
    b.dueDate < now
  }

  datatype Member = Member(id: MemberId, name: string, email: string, phone: string, balance: int)

  function NewMember(id: MemberId, name: string, email: string, phone: string): (m: Member)
    ensures m.id == id && m.balance == 0
  {
    Member(id, name, email, phone, 0)
  }

  datatype LibraryError =
    | AlreadyIssued        // "Book is already issued"
    | BookIsReserved       // "Book is reserved"
    | NotIssuedToMember    // "Book is not issued to this member"
    | AlreadyReserved      // "Book is already reserved"

  /** The service's two fields and the books it and its callers share. */
  datatype Library = Library(members: seq<Member>, idToBooks: seq<(BookId, seq<BookRef>)>, books: seq<Book>)

  const EmptyLibrary: Library := Library([], [], [])

  /** `idToBooks.get(id) || []`. */
  function Copies(lib: Library, id: BookId): seq<BookRef>
  {
    OM.Get(lib.idToBooks, id).GetOr([])
  }

  /** A copy made with the `Book` constructor. */
  function CreateBook(lib: Library, d: BookDetails, now: int): (r: (Library, BookRef))
    ensures r.1 == |lib.books| && r.0.books == lib.books + [NewBook(d, now)]
    ensures r.0 == lib.(books := r.0.books)
  {
    (lib.(books := lib.books + [NewBook(d, now)]), |lib.books|)
  }

  /** `addBook`: the copy is appended to those filed under its id. */
  function AddBook(lib: Library, ref: BookRef): (r: Library)
    requires ref < |lib.books|
    ensures Copies(r, lib.books[ref].details.id) == Copies(lib, lib.books[ref].details.id) + [ref]
    ensures forall id :: id != lib.books[ref].details.id ==> Copies(r, id) == Copies(lib, id)
    ensures r.books == lib.books && r.members == lib.members
  {
    var id := lib.books[ref].details.id;
    var t := OM.Put(lib.idToBooks, id, Copies(lib, id) + [ref]);
    forall id' ensures OM.Get(t, id') == if id' == id then Some(Copies(lib, id) + [ref]) else OM.Get(lib.idToBooks, id') {
      OM.PutGet(lib.idToBooks, id, Copies(lib, id) + [ref], id');
    }
    lib.(idToBooks := t)
  }

  /** `removeBook`: every copy filed under the copy's id goes, not just the
      one given. */
  function RemoveBook(lib: Library, ref: BookRef): (r: Library)
    requires ref < |lib.books|
    ensures Copies(r, lib.books[ref].details.id) == []
    ensures forall id :: id != lib.books[ref].details.id ==> Copies(r, id) == Copies(lib, id)
    ensures r.books == lib.books && r.members == lib.members
  {
    var id := lib.books[ref].details.id;
    var t := OM.Remove(lib.idToBooks, id);
    forall id' | id' != id ensures OM.Get(t, id') == OM.Get(lib.idToBooks, id') {
      OM.RemoveGet(lib.idToBooks, id, id');
    }
    lib.(idToBooks := t)
  }

  /** Replaces one book in the store. */
  function SetBook(lib: Library, ref: BookRef, b: Book): (r: Library)
    requires ref < |lib.books|
    ensures r.books == lib.books[ref := b]
  {
    lib.(books := lib.books[ref := b])
  }

  /** `issueBook`: refused when the copy is issued, or reserved by anyone,
      the requester included. */
  function IssueBook(lib: Library, ref: BookRef, m: MemberId): (r: Result<Library, LibraryError>)
    requires ref < |lib.books|
    ensures lib.books[ref].issuedTo.Some? ==> r == Err(AlreadyIssued)
    ensures lib.books[ref].issuedTo.None? && IsReserved(lib.books[ref]) ==> r == Err(BookIsReserved)
    ensures r.Ok? <==> lib.books[ref].issuedTo.None? && !IsReserved(lib.books[ref])
    ensures r.Ok? ==> r.value == SetBook(lib, ref, lib.books[ref].(issuedTo := Some(m)))
  {
    var b := lib.books[ref];
    if b.issuedTo.Some? then Err(AlreadyIssued)
    else if IsReserved(b) then Err(BookIsReserved)
    else Ok(SetBook(lib, ref, b.(issuedTo := Some(m))))
  }

  /** `returnBook`: refused unless the copy is issued to this member; a
      late return adds the flat fine to the member's balance. The due date
      is not renewed. */
  function ReturnBook(lib: Library, ref: BookRef, m: Member, now: int): (r: Result<(Library, Member), LibraryError>)
    requires ref < |lib.books|
    ensures r.Err? <==> lib.books[ref].issuedTo != Some(m.id)
    ensures r.Err? ==> r.error == NotIssuedToMember
    ensures r.Ok? ==> r.value.0 == SetBook(lib, ref, lib.books[ref].(issuedTo := None))
    ensures r.Ok? ==> r.value.1 == m.(balance := r.value.1.balance)
    ensures r.Ok? ==> r.value.1.balance == m.balance + (if IsOverdue(lib.books[ref], now) then OverdueFine else 0)
  {
    var b := lib.books[ref];
    if b.issuedTo != Some(m.id) then Err(NotIssuedToMember)
    else
      var m' := if IsOverdue(b, now) then m.(balance := m.balance + OverdueFine) else m;
      Ok((SetBook(lib, ref, b.(issuedTo := None)), m'))
  }

  /** `reserveBook`: refused when anyone holds a reservation. */
  function ReserveBook(lib: Library, ref: BookRef, m: MemberId): (r: Result<Library, LibraryError>)
    requires ref < |lib.books|
    ensures r.Err? <==> IsReserved(lib.books[ref])
    ensures r.Err? ==> r.error == AlreadyReserved
    ensures r.Ok? ==> r.value == SetBook(lib, ref, lib.books[ref].(reservedTo := Some(m)))
  {
    var b := lib.books[ref];
    if IsReserved(b) then Err(AlreadyReserved) else Ok(SetBook(lib, ref, b.(reservedTo := Some(m))))
  }

  /** `cancelReservation`: clears the reservation whoever holds it; the
      member asking is not consulted. */
  function CancelReservation(lib: Library, ref: BookRef, m: MemberId): (r: Library)
    requires ref < |lib.books|
    ensures r == SetBook(lib, ref, lib.books[ref].(reservedTo := None))
    ensures !IsReserved(r.books[ref])
  {
    SetBook(lib, ref, lib.books[ref].(reservedTo := None))
  }

  /** The service's table has one entry per id and refers only to stored
      copies, each filed under its own id. Every operation here keeps this. */
  predicate Valid(lib: Library)
  {
    && OM.DistinctKeys(lib.idToBooks)
    && forall e :: e in lib.idToBooks ==> Filed(lib.books, e)
  }

  /** Every copy in the entry is stored and carries the entry's id. */
  predicate Filed(books: seq<Book>, e: (BookId, seq<BookRef>))
  {
    forall j :: 0 <= j < |e.1| ==> e.1[j] < |books| && books[e.1[j]].details.id == e.0
  }

  lemma OperationsPreserveValid(lib: Library, ref: BookRef, m: Member, now: int, d: BookDetails)
    requires Valid(lib) && ref < |lib.books|
    ensures Valid(CreateBook(lib, d, now).0)
    ensures Valid(AddBook(lib, ref)) && Valid(RemoveBook(lib, ref))
    ensures IssueBook(lib, ref, m.id).Ok? ==> Valid(IssueBook(lib, ref, m.id).value)
    ensures ReturnBook(lib, ref, m, now).Ok? ==> Valid(ReturnBook(lib, ref, m, now).value.0)
    ensures ReserveBook(lib, ref, m.id).Ok? ==> Valid(ReserveBook(lib, ref, m.id).value)
    ensures Valid(CancelReservation(lib, ref, m.id))
  {
    AddBookPreservesValid(lib, ref);
    OM.RemoveDistinct(lib.idToBooks, lib.books[ref].details.id);
  }

  /** Filing a stored copy under its own id keeps the index valid. */
  lemma AddBookPreservesValid(lib: Library, ref: BookRef)
    requires Valid(lib) && ref < |lib.books|
    ensures Valid(AddBook(lib, ref))
  {
    var id := lib.books[ref].details.id;
    var t := OM.Put(lib.idToBooks, id, Copies(lib, id) + [ref]);
    assert AddBook(lib, ref).idToBooks == t;
    forall e | e in t ensures Filed(lib.books, e) {
      var i :| 0 <= i < |t| && t[i] == e;
      if OM.HasKey(lib.idToBooks, id) && i == OM.IndexOf(lib.idToBooks, id) {
        assert lib.idToBooks[i] in lib.idToBooks;
      } else if i < |lib.idToBooks| {
        assert t[i] == lib.idToBooks[i];
      }
    }
    OM.PutDistinct(lib.idToBooks, id, Copies(lib, id) + [ref]);
  }

  /** Issuing a fresh copy and taking it back restores the store; the
      member pays 100 exactly when the return is late. */
  lemma IssueThenReturn(lib: Library, ref: BookRef, m: Member, now: int)
    requires ref < |lib.books| && lib.books[ref].issuedTo.None? && !IsReserved(lib.books[ref])
    ensures IssueBook(lib, ref, m.id).Ok?
    ensures var r := ReturnBook(IssueBook(lib, ref, m.id).value, ref, m, now);
      && r.Ok? && r.value.0 == lib
      && (r.value.1 == m <==> !IsOverdue(lib.books[ref], now))
  {
  }

  /** Another member's return is refused, and nothing changes. */
  lemma OnlyTheBorrowerReturns(lib: Library, ref: BookRef, m: MemberId, other: Member, now: int)
    requires ref < |lib.books| && other.id != m
    requires IssueBook(lib, ref, m).Ok?
    ensures ReturnBook(IssueBook(lib, ref, m).value, ref, other, now) == Err(NotIssuedToMember)
  {
  }

  /** Reserving and then cancelling restores the store; while reserved the
      copy cannot be issued, not even to the member who reserved it. */
  lemma ReserveThenCancel(lib: Library, ref: BookRef, m: MemberId, anyone: MemberId)
    requires ref < |lib.books| && !IsReserved(lib.books[ref])
    ensures ReserveBook(lib, ref, m).Ok?
    ensures IssueBook(ReserveBook(lib, ref, m).value, ref, m).Err?
    ensures CancelReservation(ReserveBook(lib, ref, m).value, ref, anyone) == lib
  {
  }

  // --------------------------------------------------------------- search

  /** `Array.from(idToBooks.values()).flat()`. */
  function AllCopies(t: seq<(BookId, seq<BookRef>)>): (r: seq<BookRef>)
  {
    if |t| == 0 then [] else AllCopies(t[..|t| - 1]) + t[|t| - 1].1
  }

  lemma {:induction false} AllCopiesMembership(t: seq<(BookId, seq<BookRef>)>, ref: BookRef)
    ensures ref in AllCopies(t) <==> exists i :: 0 <= i < |t| && ref in t[i].1
  {
    if |t| > 0 {
      var init := t[..|t| - 1];
      AllCopiesMembership(init, ref);
      if ref in AllCopies(init) {
        var i :| 0 <= i < |init| && ref in init[i].1;
        assert t[i] == init[i];
      }
      if exists i :: 0 <= i < |t| && ref in t[i].1 {
        var i :| 0 <= i < |t| && ref in t[i].1;
        if i < |init| {
          assert init[i] == t[i];
        }
      }
    }
  }

  function FilterTitle(books: seq<Book>, cs: seq<BookRef>, title: string): (r: seq<BookRef>)
    ensures forall ref :: ref in r <==> ref in cs && ref < |books| && books[ref].details.title == title
  {
    if |cs| == 0 then []
    else
      FilterTitle(books, cs[..|cs| - 1], title) + TitleOne(books, cs[|cs| - 1], title)
  }

  /** The filter keeps order and repeats: two runs of copies in a row
      filter to their filtered runs in a row, and a single copy is kept
      exactly when its title is the one asked for. */
  lemma {:induction false} FilterTitleAppend(books: seq<Book>, a: seq<BookRef>, b: seq<BookRef>, c: BookRef, title: string)
    ensures FilterTitle(books, a + b, title) == FilterTitle(books, a, title) + FilterTitle(books, b, title)
    ensures FilterTitle(books, [c], title) == if c < |books| && books[c].details.title == title then [c] else []
    decreases |b|
  {
    assert FilterTitle(books, [c], title) == TitleOne(books, c, title) by {
      FilterTitleSnoc(books, [], c, title);
      assert [] + [c] == [c];
      assert FilterTitle(books, [], title) + TitleOne(books, c, title) == TitleOne(books, c, title);
    }
    if |b| == 0 {
      assert a + b == a;
    } else {
      FilterTitleAppend(books, a, b[..|b| - 1], c, title);
      FilterTitleLast(books, a, b, title);
    }
  }

  /** What the filter keeps of a single copy. */
  function TitleOne(books: seq<Book>, c: BookRef, title: string): (r: seq<BookRef>)
    ensures c in r <==> c < |books| && books[c].details.title == title
    ensures |r| <= 1 && forall d :: d in r ==> d == c
  {
    if c < |books| && books[c].details.title == title then [c] else []
  }

  /** One more copy is kept at the end when its title matches. */
  lemma FilterTitleSnoc(books: seq<Book>, cs: seq<BookRef>, c: BookRef, title: string)
    ensures FilterTitle(books, cs + [c], title) == FilterTitle(books, cs, title) + TitleOne(books, c, title)
  {
    var cc := cs + [c];
    assert cc[..|cc| - 1] == cs;
  }

  /** The inductive step of `FilterTitleAppend`. */
  lemma FilterTitleLast(books: seq<Book>, a: seq<BookRef>, b: seq<BookRef>, title: string)
    requires |b| > 0
    ensures FilterTitle(books, a + b[..|b| - 1], title) == FilterTitle(books, a, title) + FilterTitle(books, b[..|b| - 1], title) ==>
      FilterTitle(books, a + b, title) == FilterTitle(books, a, title) + FilterTitle(books, b, title)
  {
    var init, last := b[..|b| - 1], b[|b| - 1];
    assert b == init + [last];
    assert a + b == (a + init) + [last];
    FilterTitleSnoc(books, a + init, last, title);
    FilterTitleSnoc(books, init, last, title);
    ConcatAssoc(FilterTitle(books, a, title), FilterTitle(books, init, title), TitleOne(books, last, title));
  }

  /** `searchBookByTitle`: the filed copies whose title is exactly the one
      asked for. */
  function SearchBookByTitle(lib: Library, title: string): (r: seq<BookRef>)
  {
    FilterTitle(lib.books, AllCopies(lib.idToBooks), title)
  }

  /** A copy is found exactly when it is filed and has that title. */
  lemma SearchFindsExactly(lib: Library, title: string, ref: BookRef)
    requires Valid(lib)
    ensures ref in SearchBookByTitle(lib, title)
        <==> ref < |lib.books| && lib.books[ref].details.title == title && ref in Copies(lib, lib.books[ref].details.id)
  {
    AllCopiesMembership(lib.idToBooks, ref);
    if ref in AllCopies(lib.idToBooks) {
      var i :| 0 <= i < |lib.idToBooks| && ref in lib.idToBooks[i].1;
      var j :| 0 <= j < |lib.idToBooks[i].1| && lib.idToBooks[i].1[j] == ref;
      assert Filed(lib.books, lib.idToBooks[i]);
      assert Copies(lib, lib.books[ref].details.id) == lib.idToBooks[i].1;
    }
    if ref < |lib.books| && ref in Copies(lib, lib.books[ref].details.id) {
      var k := OM.IndexOf(lib.idToBooks, lib.books[ref].details.id);
      assert ref in lib.idToBooks[k].1;
    }
  }

  // ----------------------------------------------------------- membership

  /** `cancelMembership`: every member with the id goes; the rest stay, in
      order. */
  function CancelMembership(lib: Library, id: MemberId): (r: Library)
    ensures forall i :: 0 <= i < |r.members| ==> r.members[i].id != id && r.members[i] in lib.members
    ensures forall i :: 0 <= i < |lib.members| && lib.members[i].id != id ==> lib.members[i] in r.members
    ensures r == lib.(members := r.members)
  {
    lib.(members := DropMember(lib.members, id))
  }

  function DropMember(ms: seq<Member>, id: MemberId): (r: seq<Member>)
    ensures forall i :: 0 <= i < |r| ==> r[i].id != id && r[i] in ms
    ensures forall i :: 0 <= i < |ms| && ms[i].id != id ==> ms[i] in r
  {
    if |ms| == 0 then []
    else if ms[0].id == id then DropMember(ms[1..], id)
    else
      var rest := DropMember(ms[1..], id);
      assert forall i :: 1 <= i < |ms| ==> ms[i] == ms[1..][i - 1];
      [ms[0]] + rest
  }

  /** The remaining members keep their order: dropping from two lists in a
      row drops from each, and a single member stays exactly when their id
      differs. */
  lemma {:induction false} DropMemberAppend(a: seq<Member>, b: seq<Member>, m: Member, id: MemberId)
    ensures DropMember(a + b, id) == DropMember(a, id) + DropMember(b, id)
    ensures DropMember([m], id) == if m.id == id then [] else [m]
    decreases |a|
  {
    assert [m][1..] == [];
    if |a| == 0 {
      assert a + b == b;
    } else {
      assert (a + b)[0] == a[0];
      assert (a + b)[1..] == a[1..] + b;
      DropMemberAppend(a[1..], b, m, id);
    }
  }

  // ------------------------------------------------------------ notifier

  /** The notifier's table: per book id, the members to tell, in the order
      they asked. */
  type Observers = seq<(BookId, seq<MemberId>)>

  /** `addBookObserver`: the member joins the end of the list, even when
      already on it. */
  function AddBookObserver(obs: Observers, id: BookId, m: MemberId): (r: Observers)
    ensures Notified(r, id) == Notified(obs, id) + [m]
    ensures forall other :: other != id ==> Notified(r, other) == Notified(obs, other)
  {
    var r := OM.Put(obs, id, Notified(obs, id) + [m]);
    forall k ensures OM.Get(r, k) == if k == id then Some(Notified(obs, id) + [m]) else OM.Get(obs, k) {
      OM.PutGet(obs, id, Notified(obs, id) + [m], k);
    }
    r
  }

  /** `removeBookObserver`: every entry for the member goes; the id gets a
      list even if it had none. */
  function RemoveBookObserver(obs: Observers, id: BookId, m: MemberId): (r: Observers)
    ensures OM.HasKey(r, id)
    ensures Notified(r, id) == Without(Notified(obs, id), m)
    ensures forall other :: other != id ==> Notified(r, other) == Notified(obs, other)
  {
    var r := OM.Put(obs, id, Without(Notified(obs, id), m));
    forall k ensures OM.Get(r, k) == if k == id then Some(Without(Notified(obs, id), m)) else OM.Get(obs, k) {
      OM.PutGet(obs, id, Without(Notified(obs, id), m), k);
    }
    r
  }

  /** `sendNotificationBookIsAvailable`: the members told, in order. */
  function Notified(obs: Observers, id: BookId): seq<MemberId>
  {
    OM.Get(obs, id).GetOr([])
  }

  /** Subscribing and then unsubscribing a member who was not subscribed
      leaves the same members to be told. */
  lemma SubscribeThenUnsubscribe(obs: Observers, id: BookId, m: MemberId)
    requires m !in Notified(obs, id)
    ensures Notified(RemoveBookObserver(AddBookObserver(obs, id, m), id, m), id) == Notified(obs, id)
  {
    WithoutAppended(Notified(obs, id), m);
  }
}
