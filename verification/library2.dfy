/** The lending service of LibraryManagement2.ts: copies of a title share a
    book id; the service keeps an inventory of copies per id, a unified
    search index keyed by prefixed strings, and per member the set of book
    ids borrowed, capped at five.

    Book objects live in a store addressed by `BookRef`, so that the
    inventory, like the source's arrays, refers to the very copies that
    issue and return change. A member is a value that `returnBook` hands
    back with its fine added. The clock is the parameter `now`, in
    milliseconds. */
module Library2 {
  import opened Wrappers
  import opened JsNumbers
  import opened Seqs
  import OM = OrderedMap

  type BookRef = nat
  type BookId = string
  type MemberId = string

  const MaxBooksAllowed: int := 5
  const MaxLendingDays: int := 10
  /** The fine per whole day overdue. */
  const FinePerDay: int := 10

  datatype BookStatus = Available | Issued | Reserved | Lost
  datatype BookSubject = Fiction | Science | History | Technology | Philosophy

  datatype BookDetails = BookDetails(
    id: BookId,
    title: string,
    author: string,
    subject: BookSubject,
    publicationDate: int,
    rackNumber: string,
    barcode: string)

  datatype Book = Book(
    details: BookDetails,
    status: BookStatus,
    issuedTo: Option<MemberId>,
    reservedTo: Option<MemberId>,
    dueDate: Option<int>)

  /** A new copy: available, issued to and reserved by nobody. */
  function NewBook(d: BookDetails): Book
  {
    Book(d, Available, None, None, None)
  }

  /** `setIssuedTo`: the status follows whether a member is given. */
  function SetIssuedTo(b: Book, m: Option<MemberId>, due: Option<int>): (r: Book)
    ensures r.status == if m.Some? then Issued else Available
    ensures r == b.(issuedTo := m, dueDate := due, status := r.status)
  {
    b.(issuedTo := m, dueDate := due, status := if m.Some? then Issued else Available)
  }

  /** `setReservedTo`: the status follows whether a member is given; the
      issue fields are left alone. */
  function SetReservedTo(b: Book, m: Option<MemberId>): (r: Book)
    ensures r.status == if m.Some? then Reserved else Available
    ensures r == b.(reservedTo := m, status := r.status)
  {
    b.(reservedTo := m, status := if m.Some? then Reserved else Available)
  }

  /** `isOverdue`: the due date has passed. */
  predicate IsOverdue(b: Book, now: int)
  {
    b.dueDate.Some? && b.dueDate.value < now
  }

  /** `getOverdueFine`: 10 for each whole day past the due date. */
  function OverdueFine(b: Book, now: int): (f: int)
    ensures f >= 0
    ensures !IsOverdue(b, now) ==> f == 0
    ensures IsOverdue(b, now) ==>
              f % FinePerDay == 0 && (f / FinePerDay) * DayMs <= now - b.dueDate.value < (f / FinePerDay + 1) * DayMs
  {
    if !IsOverdue(b, now) then 0 else FloorDiv(now - b.dueDate.value, DayMs) * FinePerDay
  }

  // ----------------------------------------------------------------- members

  datatype Member = Member(id: MemberId, name: string, email: string, phone: string, cardNumber: string, balance: int)

  datatype LibraryError =
    | NotAvailable            // "Book is not available"
    | BorrowLimitReached      // "Member cannot borrow more than 5 books"
    | NotIssuedToMember       // "Book is not issued to this member"
    | PaymentExceedsBalance   // "Payment amount exceeds balance"

  /** `addFine`. */
  function AddFine(m: Member, amount: int): (r: Member)
    ensures r.balance == m.balance + amount
    ensures r == m.(balance := r.balance)
  {
    m.(balance := m.balance + amount)
  }

  /** `payFine`: more than the balance is refused. */
  function PayFine(m: Member, amount: int): (r: Result<Member, LibraryError>)
    ensures r.Err? <==> amount > m.balance
    ensures r.Err? ==> r.error == PaymentExceedsBalance
    ensures r.Ok? ==> r.value == m.(balance := m.balance - amount)
    ensures r.Ok? ==> r.value.balance >= 0
  {
    if amount > m.balance then Err(PaymentExceedsBalance) else Ok(m.(balance := m.balance - amount))
  }

  /** Paying part of a fine and then the rest clears it exactly. */
  lemma PayInInstalments(m: Member, fine: int, first: int)
    requires 0 <= first <= fine
    ensures PayFine(AddFine(m, fine), first).Ok?
         == (first <= m.balance + fine)
    ensures m.balance >= 0 ==> PayFine(AddFine(m, fine), first).Ok?
    ensures m.balance >= 0 ==> var after := PayFine(AddFine(m, fine), first).value;
              PayFine(after, fine - first) == Ok(m)
  {
  }

  // ----------------------------------------------------------------- service

  /** The keys of the unified index. The source writes them as
      `title:<title>`, `author:<author>` and `subject:<subject>`; the three
      prefixes differ, so these strings are equal exactly when the variants
      below are. */
  datatype IndexKey = TitleKey(title: string) | AuthorKey(author: string) | SubjectKey(subject: BookSubject)

  datatype Service = Service(
    store: seq<Book>,
    indexes: seq<(IndexKey, seq<BookId>)>,
    inventory: seq<(BookId, seq<BookRef>)>,
    borrowings: seq<(MemberId, seq<BookId>)>)

  const EmptyService: Service := Service([], [], [], [])

  /** `bookInventory.get(id) || []`. */
  function Copies(svc: Service, id: BookId): seq<BookRef>
  {
    OM.Get(svc.inventory, id).GetOr([])
  }

  /** The set of book ids `memberId` has borrowed. `getMemberBorrowings`
      also files an empty set for a member seen for the first time; nothing
      reads that entry's position, so it is not recorded here. */
  function Borrowings(svc: Service, m: MemberId): seq<BookId>
  {
    OM.Get(svc.borrowings, m).GetOr([])
  }

  /** `getBorrowedBooksCount`. */
  function BorrowedCount(svc: Service, m: MemberId): nat
  {
    |Borrowings(svc, m)|
  }

  /** `addToIndex`: the id joins the set filed under the key. */
  function AddToIndex(ix: seq<(IndexKey, seq<BookId>)>, key: IndexKey, id: BookId): seq<(IndexKey, seq<BookId>)>
  {
    OM.Put(ix, key, SetAdd(OM.Get(ix, key).GetOr([]), id))
  }

  lemma AddToIndexGet(ix: seq<(IndexKey, seq<BookId>)>, key: IndexKey, id: BookId, k: IndexKey)
    ensures OM.Get(AddToIndex(ix, key, id), k)
      == if k == key then Some(SetAdd(OM.Get(ix, key).GetOr([]), id)) else OM.Get(ix, k)
  {
    OM.PutGet(ix, key, SetAdd(OM.Get(ix, key).GetOr([]), id), k);
  }

  /** The `Book` constructor as `Librarian.addBook` calls it: a copy in
      the store under a reference no other copy uses. */
  function CreateBook(svc: Service, d: BookDetails): (r: (Service, BookRef))
    ensures r.1 == |svc.store| && r.0.store == svc.store + [NewBook(d)]
    ensures r.0 == svc.(store := r.0.store)
  {
    (svc.(store := svc.store + [NewBook(d)]), |svc.store|)
  }

  /** `addBook`: the copy joins the inventory under its id, and the id
      joins the index under its title, author and subject. */
  function AddBook(svc: Service, ref: BookRef): (r: Service)
    requires ref < |svc.store|
    ensures Copies(r, svc.store[ref].details.id) == Copies(svc, svc.store[ref].details.id) + [ref]
    ensures forall id :: id != svc.store[ref].details.id ==> Copies(r, id) == Copies(svc, id)
    ensures var d := svc.store[ref].details;
      forall key :: OM.Get(r.indexes, key)
        == if key == TitleKey(d.title) || key == AuthorKey(d.author) || key == SubjectKey(d.subject)
           then Some(SetAdd(OM.Get(svc.indexes, key).GetOr([]), d.id))
           else OM.Get(svc.indexes, key)
    ensures r.store == svc.store && r.borrowings == svc.borrowings
  {
    var d := svc.store[ref].details;
    var inv := OM.Put(svc.inventory, d.id, Copies(svc, d.id) + [ref]);
    forall id ensures OM.Get(inv, id) == if id == d.id then Some(Copies(svc, d.id) + [ref]) else OM.Get(svc.inventory, id) {
      OM.PutGet(svc.inventory, d.id, Copies(svc, d.id) + [ref], id);
    }
    var ix1 := AddToIndex(svc.indexes, TitleKey(d.title), d.id);
    var ix2 := AddToIndex(ix1, AuthorKey(d.author), d.id);
    var ix := AddToIndex(ix2, SubjectKey(d.subject), d.id);
    forall key ensures OM.Get(ix, key)
        == if key == TitleKey(d.title) || key == AuthorKey(d.author) || key == SubjectKey(d.subject)
           then Some(SetAdd(OM.Get(svc.indexes, key).GetOr([]), d.id))
           else OM.Get(svc.indexes, key)
    {
      AddToIndexGet(svc.indexes, TitleKey(d.title), d.id, key);
      AddToIndexGet(ix1, AuthorKey(d.author), d.id, key);
      AddToIndexGet(ix2, SubjectKey(d.subject), d.id, key);
    }
    svc.(inventory := inv, indexes := ix)
  }

  /** `Librarian.addBook`: a new copy is made from the details and added. */
  function LibrarianAddBook(svc: Service, d: BookDetails): (r: (Service, BookRef))
    ensures r.1 < |r.0.store| && r.0.store[r.1] == NewBook(d)
    ensures r.1 == |svc.store|
    ensures Copies(r.0, d.id) == Copies(svc, d.id) + [r.1]
  {
    var (svc1, ref) := CreateBook(svc, d);
    (AddBook(svc1, ref), ref)
  }

  /** `issueBook`: refused unless the copy is available and the member has
      fewer than five ids borrowed; otherwise the copy is issued for ten
      days and its id joins the member's set. */
  function IssueBook(svc: Service, ref: BookRef, m: MemberId, now: int): (r: Result<Service, LibraryError>)
    requires ref < |svc.store|
    ensures svc.store[ref].status != Available ==> r == Err(NotAvailable)
    ensures svc.store[ref].status == Available && BorrowedCount(svc, m) >= MaxBooksAllowed ==> r == Err(BorrowLimitReached)
    ensures r.Ok? <==> svc.store[ref].status == Available && BorrowedCount(svc, m) < MaxBooksAllowed
    ensures r.Ok? ==> r.value.store == svc.store[ref := SetIssuedTo(svc.store[ref], Some(m), Some(now + MaxLendingDays * DayMs))]
    ensures r.Ok? ==> Borrowings(r.value, m) == SetAdd(Borrowings(svc, m), svc.store[ref].details.id)
    ensures r.Ok? ==> forall other :: other != m ==> Borrowings(r.value, other) == Borrowings(svc, other)
    ensures r.Ok? ==> r.value.inventory == svc.inventory && r.value.indexes == svc.indexes
  {
    var b := svc.store[ref];
    if b.status != Available then Err(NotAvailable)
    else if BorrowedCount(svc, m) >= MaxBooksAllowed then Err(BorrowLimitReached)
    else
      var set' := SetAdd(Borrowings(svc, m), b.details.id);
      var bw := OM.Put(svc.borrowings, m, set');
      forall other ensures OM.Get(bw, other) == if other == m then Some(set') else OM.Get(svc.borrowings, other) {
        OM.PutGet(svc.borrowings, m, set', other);
      }
      Ok(svc.(store := svc.store[ref := SetIssuedTo(b, Some(m), Some(now + MaxLendingDays * DayMs))], borrowings := bw))
  }

  /** `returnBook`: refused unless the copy is issued to a member with this
      id; an overdue copy adds its fine to the member's balance; the copy
      becomes available and its id leaves the member's set. */
  function ReturnBook(svc: Service, ref: BookRef, m: Member, now: int): (r: Result<(Service, Member), LibraryError>)
    requires ref < |svc.store|
    ensures r.Err? <==> svc.store[ref].issuedTo != Some(m.id)
    ensures r.Err? ==> r.error == NotIssuedToMember
    ensures r.Ok? ==> r.value.1 == AddFine(m, OverdueFine(svc.store[ref], now))
    ensures r.Ok? ==> r.value.0.store == svc.store[ref := SetIssuedTo(svc.store[ref], None, None)]
    ensures r.Ok? ==> r.value.0.store[ref].status == Available
    ensures r.Ok? ==> Borrowings(r.value.0, m.id) == Without(Borrowings(svc, m.id), svc.store[ref].details.id)
    ensures r.Ok? ==> forall other :: other != m.id ==> Borrowings(r.value.0, other) == Borrowings(svc, other)
    ensures r.Ok? ==> r.value.0.inventory == svc.inventory && r.value.0.indexes == svc.indexes
  {
    var b := svc.store[ref];
    if b.issuedTo != Some(m.id) then Err(NotIssuedToMember)
    else
      var m' := if IsOverdue(b, now) then AddFine(m, OverdueFine(b, now)) else m;
      var set' := Without(Borrowings(svc, m.id), b.details.id);
      var bw := OM.Put(svc.borrowings, m.id, set');
      forall other ensures OM.Get(bw, other) == if other == m.id then Some(set') else OM.Get(svc.borrowings, other) {
        OM.PutGet(svc.borrowings, m.id, set', other);
      }
      Ok((svc.(store := svc.store[ref := SetIssuedTo(b, None, None)], borrowings := bw), m'))
  }

  /** The representation invariant the service keeps: the inventory files
      stored copies under their own ids, and every member's set of ids has
      no repeats and at most five entries. */
  predicate Valid(svc: Service)
  {
    && OM.DistinctKeys(svc.borrowings)
    && (forall i :: 0 <= i < |svc.borrowings| ==>
          NoDuplicates(svc.borrowings[i].1) && |svc.borrowings[i].1| <= MaxBooksAllowed)
    && (forall i, j :: 0 <= i < |svc.inventory| && 0 <= j < |svc.inventory[i].1| ==>
          svc.inventory[i].1[j] < |svc.store| && svc.store[svc.inventory[i].1[j]].details.id == svc.inventory[i].0)
  }

  /** The entry for `m` in a valid service has no repeats and at most five
      ids. */
  lemma BorrowingsBounded(svc: Service, m: MemberId)
    requires Valid(svc)
    ensures NoDuplicates(Borrowings(svc, m)) && BorrowedCount(svc, m) <= MaxBooksAllowed
  {
  }

  /** Replacing one member's set with a bounded duplicate-free one keeps
      the table valid. */
  lemma PutBorrowingsValid(t: seq<(MemberId, seq<BookId>)>, m: MemberId, s: seq<BookId>)
    requires OM.DistinctKeys(t)
    requires forall i :: 0 <= i < |t| ==> NoDuplicates(t[i].1) && |t[i].1| <= MaxBooksAllowed
    requires NoDuplicates(s) && |s| <= MaxBooksAllowed
    ensures OM.DistinctKeys(OM.Put(t, m, s))
    ensures forall i :: 0 <= i < |OM.Put(t, m, s)| ==> NoDuplicates(OM.Put(t, m, s)[i].1) && |OM.Put(t, m, s)[i].1| <= MaxBooksAllowed
  {
  }

  /** Issuing keeps the service valid: in particular no member ever has
      more than five ids borrowed. */
  lemma IssuePreservesValid(svc: Service, ref: BookRef, m: MemberId, now: int)
    requires Valid(svc) && ref < |svc.store| && IssueBook(svc, ref, m, now).Ok?
    ensures Valid(IssueBook(svc, ref, m, now).value)
  {
  }

  lemma ReturnPreservesValid(svc: Service, ref: BookRef, m: Member, now: int)
    requires Valid(svc) && ref < |svc.store| && ReturnBook(svc, ref, m, now).Ok?
    ensures Valid(ReturnBook(svc, ref, m, now).value.0)
  {
    var r := ReturnBook(svc, ref, m, now).value.0;
    BorrowingsBounded(svc, m.id);
    var s := Borrowings(svc, m.id);
    WithoutDistinct(s, svc.store[ref].details.id);
    var set' := Without(s, svc.store[ref].details.id);
    PutBorrowingsValid(svc.borrowings, m.id, set');
    assert r.borrowings == OM.Put(svc.borrowings, m.id, set');
  }

  /** Issuing a fresh copy and taking it back by the due date restores the
      store and every member's set, and charges nothing; taking it back
      late charges 10 a day. */
  lemma IssueThenReturn(svc: Service, ref: BookRef, m: Member, t: int, now: int)
    requires ref < |svc.store| && svc.store[ref] == NewBook(svc.store[ref].details)
    requires BorrowedCount(svc, m.id) < MaxBooksAllowed
    requires svc.store[ref].details.id !in Borrowings(svc, m.id)
    ensures IssueBook(svc, ref, m.id, t).Ok?
    ensures var r := ReturnBook(IssueBook(svc, ref, m.id, t).value, ref, m, now);
      && r.Ok?
      && r.value.0.store == svc.store
      && (forall other :: Borrowings(r.value.0, other) == Borrowings(svc, other))
      && r.value.1.balance == m.balance + (if now > t + MaxLendingDays * DayMs
                                           then (now - t - MaxLendingDays * DayMs) / DayMs * FinePerDay else 0)
  {
    var s1 := IssueBook(svc, ref, m.id, t).value;
    ReturnIssued(svc, s1, ref, m, t, now);
    IssuedFine(s1.store[ref], t, now);
  }

  /** The return half of `IssueThenReturn`, stated for any service whose
      store and borrowing sets are those just after the copy was issued. */
  lemma ReturnIssued(svc: Service, s1: Service, ref: BookRef, m: Member, t: int, now: int)
    requires ref < |svc.store| && svc.store[ref] == NewBook(svc.store[ref].details)
    requires svc.store[ref].details.id !in Borrowings(svc, m.id)
    requires s1.store == svc.store[ref := SetIssuedTo(svc.store[ref], Some(m.id), Some(t + MaxLendingDays * DayMs))]
    requires Borrowings(s1, m.id) == SetAdd(Borrowings(svc, m.id), svc.store[ref].details.id)
    requires forall o :: o != m.id ==> Borrowings(s1, o) == Borrowings(svc, o)
    ensures var r := ReturnBook(s1, ref, m, now);
      && r.Ok?
      && r.value.0.store == svc.store
      && (forall other :: Borrowings(r.value.0, other) == Borrowings(svc, other))
      && r.value.1.balance == m.balance + OverdueFine(s1.store[ref], now)
  {
    var issued := SetIssuedTo(svc.store[ref], Some(m.id), Some(t + MaxLendingDays * DayMs));
    assert s1.store[ref] == issued;
    var ret := ReturnBook(s1, ref, m, now).value;
    assert SetIssuedTo(issued, None, None) == svc.store[ref];
    assert ret.0.store == svc.store;
    IssueReturnBorrowings(svc, s1, ret.0, m.id, svc.store[ref].details.id);
  }

  /** Adding an id the member did not hold and then deleting it leaves
      every member's set as it was. */
  lemma IssueReturnBorrowings(svc: Service, s1: Service, s2: Service, m: MemberId, id: BookId)
    requires id !in Borrowings(svc, m)
    requires Borrowings(s1, m) == SetAdd(Borrowings(svc, m), id)
    requires forall o :: o != m ==> Borrowings(s1, o) == Borrowings(svc, o)
    requires Borrowings(s2, m) == Without(Borrowings(s1, m), id)
    requires forall o :: o != m ==> Borrowings(s2, o) == Borrowings(s1, o)
    ensures forall o :: Borrowings(s2, o) == Borrowings(svc, o)
  {
    WithoutAppended(Borrowings(svc, m), id);
  }

  /** The fine on a copy issued at `t`, and so due ten days later, is 10
      for each whole day past the due date. */
  lemma IssuedFine(b: Book, t: int, now: int)
    requires b.dueDate == Some(t + MaxLendingDays * DayMs)
    ensures OverdueFine(b, now) == if now > t + MaxLendingDays * DayMs
                                   then (now - t - MaxLendingDays * DayMs) / DayMs * FinePerDay else 0
  {
    var late := now - (t + MaxLendingDays * DayMs);
    assert late == now - t - MaxLendingDays * DayMs;
  }

  /** Two copies sharing an id count once: the cap is on distinct ids, not
      on copies held. */
  lemma SecondCopyCountsOnce(svc: Service, ref1: BookRef, ref2: BookRef, m: MemberId, now: int)
    requires ref1 < |svc.store| && ref2 < |svc.store| && ref1 != ref2
    requires svc.store[ref1].details.id == svc.store[ref2].details.id
    requires svc.store[ref2].status == Available
    requires IssueBook(svc, ref1, m, now).Ok?
    ensures var s1 := IssueBook(svc, ref1, m, now).value;
      BorrowedCount(s1, m) < MaxBooksAllowed ==>
        && IssueBook(s1, ref2, m, now).Ok?
        && BorrowedCount(IssueBook(s1, ref2, m, now).value, m) == BorrowedCount(s1, m)
  {
  }

  // --------------------------------------------------------------- queries

  /** `Array.from(ids).flatMap(id => bookInventory.get(id) || [])`. */
  function CopiesOf(svc: Service, ids: seq<BookId>): (r: seq<BookRef>)
  {
    if |ids| == 0 then [] else CopiesOf(svc, ids[..|ids| - 1]) + Copies(svc, ids[|ids| - 1])
  }

  /** A copy is found exactly when it is filed under one of the ids. */
  lemma {:induction false} CopiesOfMembership(svc: Service, ids: seq<BookId>, ref: BookRef)
    ensures ref in CopiesOf(svc, ids) <==> exists i :: 0 <= i < |ids| && ref in Copies(svc, ids[i])
  {
    if |ids| > 0 {
      var init := ids[..|ids| - 1];
      CopiesOfMembership(svc, init, ref);
      if ref in CopiesOf(svc, init) {
        var i :| 0 <= i < |init| && ref in Copies(svc, init[i]);
        assert ids[i] == init[i];
      }
      if exists i :: 0 <= i < |ids| && ref in Copies(svc, ids[i]) {
        var i :| 0 <= i < |ids| && ref in Copies(svc, ids[i]);
        if i < |init| {
          assert init[i] == ids[i];
        }
      }
    }
  }

  /** The three searches: every copy of every id filed under the key; an
      unknown key finds nothing. */
  function Search(svc: Service, key: IndexKey): (r: seq<BookRef>)
    ensures OM.Get(svc.indexes, key).None? ==> r == []
    ensures OM.Get(svc.indexes, key).Some? ==>
      var ids := OM.Get(svc.indexes, key).value;
      forall ref :: ref in r <==> exists i :: 0 <= i < |ids| && ref in Copies(svc, ids[i])
  {
    match OM.Get(svc.indexes, key)
    case None => []
    case Some(ids) =>
      forall ref ensures ref in CopiesOf(svc, ids) <==> exists i :: 0 <= i < |ids| && ref in Copies(svc, ids[i]) {
        CopiesOfMembership(svc, ids, ref);
      }
      CopiesOf(svc, ids)
  }

  function SearchByTitle(svc: Service, title: string): seq<BookRef> { Search(svc, TitleKey(title)) }
  function SearchByAuthor(svc: Service, author: string): seq<BookRef> { Search(svc, AuthorKey(author)) }
  function SearchBySubject(svc: Service, subject: BookSubject): seq<BookRef> { Search(svc, SubjectKey(subject)) }

  /** A copy just added is found by its title, by its author and by its
      subject. */
  lemma AddedBookIsFound(svc: Service, ref: BookRef)
    requires ref < |svc.store|
    ensures var d := svc.store[ref].details; var r := AddBook(svc, ref);
      ref in SearchByTitle(r, d.title) && ref in SearchByAuthor(r, d.author) && ref in SearchBySubject(r, d.subject)
  {
    var d := svc.store[ref].details;
    var r := AddBook(svc, ref);
    var ix1 := AddToIndex(svc.indexes, TitleKey(d.title), d.id);
    var ix2 := AddToIndex(ix1, AuthorKey(d.author), d.id);
    var ix3 := AddToIndex(ix2, SubjectKey(d.subject), d.id);
    assert r.indexes == ix3;
    assert ref in Copies(r, d.id);
    forall key | key in {TitleKey(d.title), AuthorKey(d.author), SubjectKey(d.subject)}
      ensures OM.Get(ix3, key).Some? && d.id in OM.Get(ix3, key).value
    {
      AddToIndexGet(svc.indexes, TitleKey(d.title), d.id, key);
      AddToIndexGet(ix1, AuthorKey(d.author), d.id, key);
      AddToIndexGet(ix2, SubjectKey(d.subject), d.id, key);
    }
    forall key | key in {TitleKey(d.title), AuthorKey(d.author), SubjectKey(d.subject)}
      ensures ref in Search(r, key)
    {
      var ids := OM.Get(ix3, key).value;
      var i :| 0 <= i < |ids| && ids[i] == d.id;
      CopiesOfMembership(r, ids, ref);
    }
  }

  /** `getAvailableCopies`: the copies filed under the id that are
      available, in filing order. */
  function AvailableCopies(svc: Service, id: BookId): (r: seq<BookRef>)
    ensures forall ref :: ref in r <==> ref in Copies(svc, id) && ref < |svc.store| && svc.store[ref].status == Available
  {
    FilterAvailable(svc.store, Copies(svc, id))
  }

  function FilterAvailable(store: seq<Book>, cs: seq<BookRef>): (r: seq<BookRef>)
    ensures forall ref :: ref in r <==> ref in cs && ref < |store| && store[ref].status == Available
  {
    if |cs| == 0 then []
    else
      FilterAvailable(store, cs[..|cs| - 1]) + AvailableOne(store, cs[|cs| - 1])
  }

  /** What the filter keeps of a single copy. */
  function AvailableOne(store: seq<Book>, c: BookRef): (r: seq<BookRef>)
    ensures c in r <==> c < |store| && store[c].status == Available
    ensures |r| <= 1 && forall d :: d in r ==> d == c
  {
    if c < |store| && store[c].status == Available then [c] else []
  }

  /** The filter keeps filing order and repeats: two runs of copies in a
      row filter to their filtered runs in a row, and a single copy is kept
      exactly when it is available. */
  lemma {:induction false} FilterAvailableAppend(store: seq<Book>, a: seq<BookRef>, b: seq<BookRef>, c: BookRef)
    ensures FilterAvailable(store, a + b) == FilterAvailable(store, a) + FilterAvailable(store, b)
    ensures FilterAvailable(store, [c]) == if c < |store| && store[c].status == Available then [c] else []
    decreases |b|
  {
    assert FilterAvailable(store, [c]) == AvailableOne(store, c) by {
      FilterAvailableSnoc(store, [], c);
      assert [] + [c] == [c];
      assert FilterAvailable(store, []) + AvailableOne(store, c) == AvailableOne(store, c);
    }
    if |b| == 0 {
      assert a + b == a;
    } else {
      FilterAvailableAppend(store, a, b[..|b| - 1], c);
      FilterAvailableLast(store, a, b);
    }
  }

  /** One more copy is kept at the end when it is available. */
  lemma FilterAvailableSnoc(store: seq<Book>, cs: seq<BookRef>, c: BookRef)
    ensures FilterAvailable(store, cs + [c]) == FilterAvailable(store, cs) + AvailableOne(store, c)
  {
    var cc := cs + [c];
    assert cc[..|cc| - 1] == cs;
  }

  /** The inductive step of `FilterAvailableAppend`. */
  lemma FilterAvailableLast(store: seq<Book>, a: seq<BookRef>, b: seq<BookRef>)
    requires |b| > 0
    ensures FilterAvailable(store, a + b[..|b| - 1]) == FilterAvailable(store, a) + FilterAvailable(store, b[..|b| - 1]) ==>
      FilterAvailable(store, a + b) == FilterAvailable(store, a) + FilterAvailable(store, b)
  {
    var init, last := b[..|b| - 1], b[|b| - 1];
    assert b == init + [last];
    assert a + b == (a + init) + [last];
    FilterAvailableSnoc(store, a + init, last);
    FilterAvailableSnoc(store, init, last);
    ConcatAssoc(FilterAvailable(store, a), FilterAvailable(store, init), AvailableOne(store, last));
  }

  /** The copy found for an id by `getBorrowedBooks`: the first one issued
      to the member. */
  function FirstIssuedCopy(store: seq<Book>, cs: seq<BookRef>, m: MemberId): (r: Option<BookRef>)
    ensures r.Some? ==> r.value in cs && r.value < |store| && store[r.value].issuedTo == Some(m)
    ensures r.None? ==> forall c :: c in cs && c < |store| ==> store[c].issuedTo != Some(m)
  {
    if |cs| == 0 then None
    else if cs[0] < |store| && store[cs[0]].issuedTo == Some(m) then Some(cs[0])
    else FirstIssuedCopy(store, cs[1..], m)
  }

  /** `getBorrowedBooks`: for each borrowed id, in borrowing order, the
      first copy issued to the member, skipping ids with none. */
  function BorrowedBooks(svc: Service, m: MemberId): (r: seq<BookRef>)
    ensures forall ref :: ref in r ==> ref < |svc.store| && svc.store[ref].issuedTo == Some(m)
    ensures |r| <= BorrowedCount(svc, m)
    ensures var ids := Borrowings(svc, m);
      forall i :: 0 <= i < |ids| && FirstIssuedCopy(svc.store, Copies(svc, ids[i]), m).Some? ==>
        FirstIssuedCopy(svc.store, Copies(svc, ids[i]), m).value in r
  {
    BorrowedFrom(svc, Borrowings(svc, m), m)
  }

  /** One step of the `map`: an id without an inventory entry, or whose
      copies are none of them issued to the member, gives nothing. */
  function IssuedCopyOf(svc: Service, id: BookId, m: MemberId): (r: seq<BookRef>)
    ensures r == match FirstIssuedCopy(svc.store, Copies(svc, id), m) case None => [] case Some(c) => [c]
  {
    match OM.Get(svc.inventory, id)
    case None => []
    case Some(cs) => match FirstIssuedCopy(svc.store, cs, m)
                     case None => []
                     case Some(c) => [c]
  }

  /** The copies found for a run of ids: one per id at most, and it is the
      first copy of that id issued to the member; every id with such a copy
      contributes it. */
  function BorrowedFrom(svc: Service, ids: seq<BookId>, m: MemberId): (r: seq<BookRef>)
    ensures |r| <= |ids|
    ensures forall ref :: ref in r ==> ref < |svc.store| && svc.store[ref].issuedTo == Some(m)
    ensures forall ref :: ref in r ==>
      exists i :: 0 <= i < |ids| && FirstIssuedCopy(svc.store, Copies(svc, ids[i]), m) == Some(ref)
    ensures forall i :: 0 <= i < |ids| && FirstIssuedCopy(svc.store, Copies(svc, ids[i]), m).Some? ==>
      FirstIssuedCopy(svc.store, Copies(svc, ids[i]), m).value in r
  {
    if |ids| == 0 then []
    else
      var init, last := ids[..|ids| - 1], ids[|ids| - 1];
      var rest := BorrowedFrom(svc, init, m);
      var found := IssuedCopyOf(svc, last, m);
      BorrowedFromStep(svc, ids, init, m, rest);
      rest + found
  }

  /** The inductive step of `BorrowedFrom`: what the shorter run of ids
      found, followed by what the last id finds. */
  lemma BorrowedFromStep(svc: Service, ids: seq<BookId>, init: seq<BookId>, m: MemberId, rest: seq<BookRef>)
    requires |ids| > 0 && init == ids[..|ids| - 1]
    requires forall ref :: ref in rest ==>
      exists i :: 0 <= i < |init| && FirstIssuedCopy(svc.store, Copies(svc, init[i]), m) == Some(ref)
    requires forall i :: 0 <= i < |init| && FirstIssuedCopy(svc.store, Copies(svc, init[i]), m).Some? ==>
      FirstIssuedCopy(svc.store, Copies(svc, init[i]), m).value in rest
    ensures var r := rest + IssuedCopyOf(svc, ids[|ids| - 1], m);
      && (forall ref :: ref in r ==>
            exists i :: 0 <= i < |ids| && FirstIssuedCopy(svc.store, Copies(svc, ids[i]), m) == Some(ref))
      && (forall i :: 0 <= i < |ids| && FirstIssuedCopy(svc.store, Copies(svc, ids[i]), m).Some? ==>
            FirstIssuedCopy(svc.store, Copies(svc, ids[i]), m).value in r)
  {
    var found := IssuedCopyOf(svc, ids[|ids| - 1], m);
    forall ref | ref in rest + found
      ensures exists i :: 0 <= i < |ids| && FirstIssuedCopy(svc.store, Copies(svc, ids[i]), m) == Some(ref)
    {
      if ref in rest {
        var j :| 0 <= j < |init| && FirstIssuedCopy(svc.store, Copies(svc, init[j]), m) == Some(ref);
        assert init[j] == ids[j];
      } else {
        assert FirstIssuedCopy(svc.store, Copies(svc, ids[|ids| - 1]), m) == Some(ref);
      }
    }
    forall i | 0 <= i < |ids| && FirstIssuedCopy(svc.store, Copies(svc, ids[i]), m).Some?
      ensures FirstIssuedCopy(svc.store, Copies(svc, ids[i]), m).value in rest + found
    {
      if i < |init| {
        assert init[i] == ids[i];
      }
    }
  }

  /** Borrowed books are found id by id, in borrowing order: two runs of ids
      give their two results in a row, and a single id gives its first copy
      issued to the member, or nothing. */
  lemma {:induction false} BorrowedFromAppend(svc: Service, a: seq<BookId>, b: seq<BookId>, m: MemberId, id: BookId)
    ensures BorrowedFrom(svc, a + b, m) == BorrowedFrom(svc, a, m) + BorrowedFrom(svc, b, m)
    ensures BorrowedFrom(svc, [id], m)
      == match FirstIssuedCopy(svc.store, Copies(svc, id), m) case None => [] case Some(c) => [c]
    decreases |b|
  {
    assert BorrowedFrom(svc, [id], m) == IssuedCopyOf(svc, id, m) by {
      BorrowedFromSnoc(svc, [], id, m);
      assert [] + [id] == [id];
      assert BorrowedFrom(svc, [], m) + IssuedCopyOf(svc, id, m) == IssuedCopyOf(svc, id, m);
    }
    if |b| == 0 {
      assert a + b == a;
    } else {
      BorrowedFromAppend(svc, a, b[..|b| - 1], m, id);
      BorrowedFromLast(svc, a, b, m);
    }
  }

  /** One more id adds what that id finds. */
  lemma BorrowedFromSnoc(svc: Service, ids: seq<BookId>, id: BookId, m: MemberId)
    ensures BorrowedFrom(svc, ids + [id], m) == BorrowedFrom(svc, ids, m) + IssuedCopyOf(svc, id, m)
  {
    var ii := ids + [id];
    assert ii[..|ii| - 1] == ids;
  }

  /** The inductive step of `BorrowedFromAppend`. */
  lemma BorrowedFromLast(svc: Service, a: seq<BookId>, b: seq<BookId>, m: MemberId)
    requires |b| > 0
    ensures BorrowedFrom(svc, a + b[..|b| - 1], m) == BorrowedFrom(svc, a, m) + BorrowedFrom(svc, b[..|b| - 1], m) ==>
      BorrowedFrom(svc, a + b, m) == BorrowedFrom(svc, a, m) + BorrowedFrom(svc, b, m)
  {
    var init, last := b[..|b| - 1], b[|b| - 1];
    assert b == init + [last];
    assert a + b == (a + init) + [last];
    BorrowedFromSnoc(svc, a + init, last, m);
    BorrowedFromSnoc(svc, init, last, m);
    ConcatAssoc(BorrowedFrom(svc, a, m), BorrowedFrom(svc, init, m), IssuedCopyOf(svc, last, m));
  }

}
