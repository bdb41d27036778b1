/** The lending library of LibraryManagement3.ts: book items with a
    four-status machine, member accounts, a catalog of title, author and
    subject indexes, and a fine ledger paid by cash, card or cheque.

    The clock is the parameter `now`, in milliseconds. Money is held in
    cents, so the fine of 1.50 per whole day overdue is exactly 150 cents a
    day. Objects the source shares by reference are named here by their
    keys: a member by id, a book item by barcode, a fine by a serial number
    the ledger hands out. */
module Library3 {
  import opened Wrappers
  import opened JsNumbers
  import OM = OrderedMap
  import Seqs

  type MemberId = string
  type Barcode = string
  type Cents = int

  /** 14 lending days, in milliseconds. */
  const LoanPeriodMs: int := 14 * DayMs
  /** The daily fine, in cents. */
  const FinePerDay: Cents := 150

  datatype BookStatus = Available | Reserved | Loaned | Lost
  datatype AccountStatus = Active | Closed | Cancelled | Blacklisted | NoStatus

  datatype BookItem = BookItem(
    barcode: Barcode,
    title: string,
    author: string,
    subject: string,
    isReferenceOnly: bool,
    status: BookStatus,
    borrowed: Option<int>,
    dueDate: Option<int>,
    borrower: Option<MemberId>,
    reservedBy: Option<MemberId>)

  // ------------------------------------------------------------- book items

  /** `checkout`: reference-only items and items that are not available
      are refused unchanged; otherwise the item is loaned to `m` for 14
      days from now. */
  function Checkout(item: BookItem, m: MemberId, now: int): (r: Step<BookItem>)
    ensures r.ok <==> !item.isReferenceOnly && item.status == Available
    ensures !r.ok ==> r.state == item
    ensures r.ok ==> r.state == item.(status := Loaned, borrower := Some(m), borrowed := Some(now),
                                      dueDate := Some(now + LoanPeriodMs))
  {
    if item.isReferenceOnly || item.status != Available then Step(false, item)
    else Step(true, item.(status := Loaned, borrower := Some(m), borrowed := Some(now), dueDate := Some(now + LoanPeriodMs)))
  }

  /** `isOverdue`: a due date exists and now is past it. */
  predicate IsOverdue(item: BookItem, now: int)
  {
    item.dueDate.Some? && now > item.dueDate.value
  }

  /** `calculateFine`: 150 cents for each whole day past the due date. */
  function CalculateFine(item: BookItem, now: int): (c: Cents)
    ensures !IsOverdue(item, now) ==> c == 0
    ensures IsOverdue(item, now) ==>
              c % FinePerDay == 0
              && (c / FinePerDay) * DayMs <= now - item.dueDate.value < (c / FinePerDay + 1) * DayMs
  {
    if !IsOverdue(item, now) then 0
    else FloorDiv(now - item.dueDate.value, DayMs) * FinePerDay
  }

  /** A fine. `paymentDate` is set when a transaction for it completes. */
  datatype Fine = Fine(serial: nat, amount: Cents, member: MemberId, book: Barcode, dueDate: int, paymentDate: Option<int>)

  predicate IsPaid(f: Fine)
  {
    f.paymentDate.Some?
  }

  /** The outcome of `returnBook`: whether it was accepted, the item after
      it, and the fine to record against the borrower, if any. */
  datatype Returned = Returned(ok: bool, item: BookItem, fine: Option<Fine>)

  /** `returnBook`: only a loaned item can come back. An overdue item with
      a borrower yields a fine (numbered `serial`) for the borrower; the
      item becomes available with borrower and dates cleared. */
  function ReturnBook(item: BookItem, now: int, serial: nat): (r: Returned)
    ensures r.ok <==> item.status == Loaned
    ensures !r.ok ==> r.item == item && r.fine == None
    ensures r.ok ==> r.item == item.(status := Available, borrower := None, borrowed := None, dueDate := None)
    ensures r.fine.Some? <==> r.ok && IsOverdue(item, now) && item.borrower.Some?
    ensures r.fine.Some? ==> r.fine.value == Fine(serial, CalculateFine(item, now), item.borrower.value,
                                                  item.barcode, item.dueDate.value, None)
  {
    if item.status != Loaned then Returned(false, item, None)
    else
      var fine := if IsOverdue(item, now) && item.borrower.Some? then
                    Some(Fine(serial, CalculateFine(item, now), item.borrower.value, item.barcode, item.dueDate.value, None))
                  else None;
      Returned(true, item.(status := Available, borrower := None, borrowed := None, dueDate := None), fine)
  }

  /** `reserve`: only an available item can be reserved. */
  function Reserve(item: BookItem, m: MemberId): (r: Step<BookItem>)
    ensures r.ok <==> item.status == Available
    ensures !r.ok ==> r.state == item
    ensures r.ok ==> r.state == item.(status := Reserved, reservedBy := Some(m))
  {
    if item.status != Available then Step(false, item)
    else Step(true, item.(status := Reserved, reservedBy := Some(m)))
  }

  /** `cancelReservation`: only the member holding the reservation can
      cancel it. */
  function CancelReservation(item: BookItem, m: MemberId): (r: Step<BookItem>)
    ensures r.ok <==> item.status == Reserved && item.reservedBy == Some(m)
    ensures !r.ok ==> r.state == item
    ensures r.ok ==> r.state == item.(status := Available, reservedBy := None)
  {
    if item.status != Reserved || item.reservedBy != Some(m) then Step(false, item)
    else Step(true, item.(status := Available, reservedBy := None))
  }

  /** The shape every item keeps once it starts out available: the status
      decides which of the borrower, dates and reservation are set. */
  predicate Consistent(item: BookItem)
  {
    && (item.status == Available ==>
          item.borrower == None && item.borrowed == None && item.dueDate == None && item.reservedBy == None)
    && (item.status == Loaned ==>
          item.borrower.Some? && item.borrowed.Some? && item.dueDate.Some? && item.reservedBy == None)
    && (item.status == Reserved ==>
          item.borrower == None && item.borrowed == None && item.dueDate == None && item.reservedBy.Some?)
  }

  lemma OperationsKeepConsistent(item: BookItem, m: MemberId, now: int, serial: nat)
    requires Consistent(item)
    ensures Consistent(Checkout(item, m, now).state)
    ensures Consistent(ReturnBook(item, now, serial).item)
    ensures Consistent(Reserve(item, m).state)
    ensures Consistent(CancelReservation(item, m).state)
  {
  }

  /** A reserved item cannot be checked out, not even by the member who
      reserved it: nothing turns a reservation into a loan. */
  lemma ReservedCannotBeCheckedOut(item: BookItem, m: MemberId, now: int)
    requires item.status == Reserved
    ensures !Checkout(item, m, now).ok
  {
  }

  /** Lending an available item and taking it back by the due date
      restores it exactly, without a fine; later, the fine is charged to the
      borrower for the whole days late. */
  lemma CheckoutThenReturn(item: BookItem, m: MemberId, t: int, now: int, serial: nat)
    requires Consistent(item) && item.status == Available && !item.isReferenceOnly
    ensures var r := ReturnBook(Checkout(item, m, t).state, now, serial);
      && r.ok && r.item == item
      && (now <= t + LoanPeriodMs ==> r.fine == None)
      && (now > t + LoanPeriodMs ==> (r.fine.Some? && r.fine.value.member == m
            && r.fine.value.amount == (now - t - LoanPeriodMs) / DayMs * FinePerDay))
  {
  }

  /** Reserving and then cancelling as the same member restores an
      available item. */
  lemma ReserveThenCancel(item: BookItem, m: MemberId)
    requires Consistent(item) && item.status == Available
    ensures CancelReservation(Reserve(item, m).state, m) == Step(true, item)
  {
  }

  // ---------------------------------------------------------------- accounts

  datatype Account = Account(id: string, password: string, status: AccountStatus)

  datatype Member = Member(account: Account, fineBalance: Cents, totalBooksCheckedout: int)

  /** `resetPassword`: changed exactly when the old password matches. */
  function ResetPassword(a: Account, oldPassword: string, newPassword: string): (r: Step<Account>)
    ensures r.ok <==> a.password == oldPassword
    ensures r.ok ==> r.state == a.(password := newPassword)
    ensures !r.ok ==> r.state == a
  {
    if a.password == oldPassword then Step(true, a.(password := newPassword)) else Step(false, a)
  }

  /** Resetting twice through the same passwords gets the old one back. */
  lemma ResetPasswordRoundTrip(a: Account, newPassword: string)
    ensures ResetPassword(ResetPassword(a, a.password, newPassword).state, newPassword, a.password) == Step(true, a)
  {
  }

  /** `blockMember`. */
  function BlockMember(m: Member): (r: Member)
    ensures r.account.status == Blacklisted
    ensures r == m.(account := m.account.(status := Blacklisted))
  {
    m.(account := m.account.(status := Blacklisted))
  }

  /** `unblockMember`. */
  function UnblockMember(m: Member): (r: Member)
    ensures r.account.status == Active
    ensures r == m.(account := m.account.(status := Active))
  {
    m.(account := m.account.(status := Active))
  }

  /** `Librarian.issueBook`: a member who is not active is refused before
      the item is looked at; otherwise it is the item's `checkout`. */
  function IssueBook(item: BookItem, m: Member, now: int): (r: Step<BookItem>)
    ensures r.ok <==> m.account.status == Active && !item.isReferenceOnly && item.status == Available
    ensures !r.ok ==> r.state == item
    ensures r.ok ==> r.state == Checkout(item, m.account.id, now).state
  {
    if m.account.status != Active then Step(false, item) else Checkout(item, m.account.id, now)
  }

  /** A blocked member can borrow nothing until unblocked; unblocking
      restores exactly the member's earlier rights. */
  lemma BlockedMemberCannotBorrow(item: BookItem, m: Member, now: int)
    ensures !IssueBook(item, BlockMember(m), now).ok
    ensures IssueBook(item, UnblockMember(BlockMember(m)), now).ok <==> !item.isReferenceOnly && item.status == Available
  {
  }

  // ----------------------------------------------------------------- catalog

  /** One index of the catalog: key to the barcodes filed under it, in
      filing order. */
  type Index = seq<(string, seq<Barcode>)>

  /** `map.get(key) || []`. */
  function Lookup(ix: Index, key: string): seq<Barcode>
  {
    OM.Get(ix, key).GetOr([])
  }

  /** `addToMap`: the item is appended under its key. */
  function FileUnder(ix: Index, key: string, b: Barcode): (r: Index)
  {
    OM.Put(ix, key, Lookup(ix, key) + [b])
  }

  lemma FileUnderLookup(ix: Index, key: string, b: Barcode, k: string)
    ensures Lookup(FileUnder(ix, key, b), k) == if k == key then Lookup(ix, key) + [b] else Lookup(ix, k)
  {
    OM.PutGet(ix, key, Lookup(ix, key) + [b], k);
  }

  datatype Catalog = Catalog(creationDate: int, titles: Index, authors: Index, subjects: Index,
                             publicationDates: Index, totalBooks: int)

  function NewCatalog(creationDate: int): Catalog
  {
    Catalog(creationDate, [], [], [], [], 0)
  }

  /** `Catalog.addBook`: filed by title, by author's name and by subject,
      and counted. The publication-date index is never filled. */
  function CatalogAddBook(c: Catalog, item: BookItem): (r: Catalog)
    ensures r.totalBooks == c.totalBooks + 1
    ensures r.publicationDates == c.publicationDates && r.creationDate == c.creationDate
  {
    c.(titles := FileUnder(c.titles, item.title, item.barcode),
       authors := FileUnder(c.authors, item.author, item.barcode),
       subjects := FileUnder(c.subjects, item.subject, item.barcode),
       totalBooks := c.totalBooks + 1)
  }

  function SearchByTitle(c: Catalog, title: string): seq<Barcode> { Lookup(c.titles, title) }
  function SearchByAuthor(c: Catalog, author: string): seq<Barcode> { Lookup(c.authors, author) }
  function SearchBySubject(c: Catalog, subject: string): seq<Barcode> { Lookup(c.subjects, subject) }
  /** `searchByPubDate` on the date already rendered as `YYYY-MM-DD`. */
  function SearchByPubDate(c: Catalog, date: string): seq<Barcode> { Lookup(c.publicationDates, date) }

  /** An added item is found under its own title, author and subject, at
      the end of what was there; every other key answers as before. */
  lemma CatalogAddBookSearch(c: Catalog, item: BookItem, key: string)
    ensures SearchByTitle(CatalogAddBook(c, item), key)
      == if key == item.title then SearchByTitle(c, key) + [item.barcode] else SearchByTitle(c, key)
    ensures SearchByAuthor(CatalogAddBook(c, item), key)
      == if key == item.author then SearchByAuthor(c, key) + [item.barcode] else SearchByAuthor(c, key)
    ensures SearchBySubject(CatalogAddBook(c, item), key)
      == if key == item.subject then SearchBySubject(c, key) + [item.barcode] else SearchBySubject(c, key)
    ensures SearchByPubDate(CatalogAddBook(c, item), key) == SearchByPubDate(c, key)
  {
    FileUnderLookup(c.titles, item.title, item.barcode, key);
    FileUnderLookup(c.authors, item.author, item.barcode, key);
    FileUnderLookup(c.subjects, item.subject, item.barcode, key);
  }

  /** Filing items one after another into a new catalog. */
  function FileAll(c: Catalog, items: seq<BookItem>): Catalog
  {
    if |items| == 0 then c else CatalogAddBook(FileAll(c, items[..|items| - 1]), items[|items| - 1])
  }

  /** Whatever has been added, the count is the number of additions, a
      never-used key finds nothing, and a publication-date search finds
      nothing at all. */
  lemma {:induction false} FileAllSearch(t: int, items: seq<BookItem>, key: string, date: string)
    requires forall i :: 0 <= i < |items| ==> items[i].title != key
    ensures FileAll(NewCatalog(t), items).totalBooks == |items|
    ensures SearchByTitle(FileAll(NewCatalog(t), items), key) == []
    ensures SearchByPubDate(FileAll(NewCatalog(t), items), date) == []
  {
    if |items| > 0 {
      var init := items[..|items| - 1];
      FileAllSearch(t, init, key, date);
      CatalogAddBookSearch(FileAll(NewCatalog(t), init), items[|items| - 1], key);
      CatalogAddBookSearch(FileAll(NewCatalog(t), init), items[|items| - 1], date);
    }
  }

  // ------------------------------------------------------------- fine ledger

  datatype PaymentMethod = CreditCard | Cash(cashTendered: Cents) | Check

  datatype TransactionStatus = Pending | Completed | Failed

  datatype FineTransaction = FineTransaction(creationDate: int, amount: Cents, fine: nat,
                                             via: PaymentMethod, status: TransactionStatus)

  /** `initiateTransaction`: cash short of the amount fails; a card or a
      cheque always goes through. */
  function InitiateTransaction(tx: FineTransaction): (r: Step<FineTransaction>)
    ensures r.ok <==> !(tx.via.Cash? && tx.via.cashTendered < tx.amount)
    ensures r.state == tx.(status := if r.ok then Completed else Failed)
  {
    if tx.via.Cash? && tx.via.cashTendered < tx.amount then Step(false, tx.(status := Failed))
    else Step(true, tx.(status := Completed))
  }

  /** `CashTransaction.getChange`. */
  function Change(cashTendered: Cents, amount: Cents): (c: Cents)
    ensures cashTendered >= amount ==> c >= 0 && c + amount == cashTendered
  {
    cashTendered - amount
  }

  datatype FineManagement = FineManagement(fines: seq<(MemberId, seq<Fine>)>, transactions: seq<FineTransaction>,
                                           serials: nat)

  const NewFineManagement: FineManagement := FineManagement([], [], 0)

  /** `addFine`: appended to the member's list. */
  function AddFine(fm: FineManagement, m: MemberId, f: Fine): (r: FineManagement)
    ensures r.transactions == fm.transactions
  {
    fm.(fines := OM.Put(fm.fines, m, GetMemberFines(fm, m) + [f]))
  }

  /** `getMemberFines`; an unknown member has none. */
  function GetMemberFines(fm: FineManagement, m: MemberId): seq<Fine>
  {
    OM.Get(fm.fines, m).GetOr([])
  }

  /** `getUnpaidFines`: the unpaid ones, in order. */
  function GetUnpaidFines(fm: FineManagement, m: MemberId): (r: seq<Fine>)
    ensures forall f :: f in r <==> f in GetMemberFines(fm, m) && !IsPaid(f)
  {
    Unpaid(GetMemberFines(fm, m))
  }

  function Unpaid(fs: seq<Fine>): (r: seq<Fine>)
    ensures forall f :: f in r <==> f in fs && !IsPaid(f)
    ensures |r| <= |fs|
  {
    if |fs| == 0 then []
    else Unpaid(fs[..|fs| - 1]) + UnpaidOne(fs[|fs| - 1])
  }

  /** `filter` keeps order and repeats: the unpaid fines of two lists in a
      row are those of the first followed by those of the second, and a
      single fine is kept exactly when it is unpaid. */
  lemma {:induction false} UnpaidAppend(a: seq<Fine>, b: seq<Fine>, f: Fine)
    ensures Unpaid(a + b) == Unpaid(a) + Unpaid(b)
    ensures Unpaid([f]) == if IsPaid(f) then [] else [f]
    decreases |b|
  {
    assert Unpaid([f]) == UnpaidOne(f) by {
      UnpaidSnoc([], f);
      assert [] + [f] == [f];
      assert Unpaid([]) + UnpaidOne(f) == UnpaidOne(f);
    }
    if |b| == 0 {
      assert a + b == a;
    } else {
      UnpaidAppend(a, b[..|b| - 1], f);
      UnpaidLast(a, b);
    }
  }

  /** What `filter` keeps of a single fine. */
  function UnpaidOne(f: Fine): (r: seq<Fine>)
    ensures f in r <==> !IsPaid(f)
    ensures |r| <= 1 && forall g :: g in r ==> g == f
  {
    if IsPaid(f) then [] else [f]
  }

  /** One more fine is kept at the end when it is unpaid. */
  lemma UnpaidSnoc(fs: seq<Fine>, f: Fine)
    ensures Unpaid(fs + [f]) == Unpaid(fs) + UnpaidOne(f)
  {
    var ff := fs + [f];
    assert ff[..|ff| - 1] == fs;
  }

  /** The inductive step of `UnpaidAppend`: the last fine of `b` is the
      last one filtered, after `a` or alone. */
  lemma UnpaidLast(a: seq<Fine>, b: seq<Fine>)
    requires |b| > 0
    ensures Unpaid(a + b[..|b| - 1]) == Unpaid(a) + Unpaid(b[..|b| - 1]) ==>
      Unpaid(a + b) == Unpaid(a) + Unpaid(b)
  {
    var init, last := b[..|b| - 1], b[|b| - 1];
    assert b == init + [last];
    assert a + b == (a + init) + [last];
    UnpaidSnoc(a + init, last);
    UnpaidSnoc(init, last);
    Seqs.ConcatAssoc(Unpaid(a), Unpaid(init), UnpaidOne(last));
  }

  /** Adding a fine appends it to that member's list only. */
  lemma AddFineGet(fm: FineManagement, m: MemberId, f: Fine, other: MemberId)
    ensures GetMemberFines(AddFine(fm, m, f), other)
      == if other == m then GetMemberFines(fm, m) + [f] else GetMemberFines(fm, other)
    ensures GetUnpaidFines(AddFine(fm, m, f), m)
      == GetUnpaidFines(fm, m) + (if IsPaid(f) then [] else [f])
  {
    OM.PutGet(fm.fines, m, GetMemberFines(fm, m) + [f], other);
    OM.PutGet(fm.fines, m, GetMemberFines(fm, m) + [f], m);
    var fs := GetMemberFines(fm, m) + [f];
    assert fs[..|fs| - 1] == GetMemberFines(fm, m);
  }

  /** `setPaymentDate` on the fine numbered `serial`, wherever it is
      listed. */
  function MarkPaid(fs: seq<Fine>, serial: nat, date: int): (r: seq<Fine>)
    ensures |r| == |fs|
    ensures forall i :: 0 <= i < |fs| ==>
              r[i] == if fs[i].serial == serial then fs[i].(paymentDate := Some(date)) else fs[i]
  {
    seq(|fs|, i requires 0 <= i < |fs| => if fs[i].serial == serial then fs[i].(paymentDate := Some(date)) else fs[i])
  }

  function MarkPaidEverywhere(t: seq<(MemberId, seq<Fine>)>, serial: nat, date: int): (r: seq<(MemberId, seq<Fine>)>)
    ensures |r| == |t|
    ensures forall i :: 0 <= i < |t| ==> r[i] == (t[i].0, MarkPaid(t[i].1, serial, date))
  {
    seq(|t|, i requires 0 <= i < |t| => (t[i].0, MarkPaid(t[i].1, serial, date)))
  }

  /** `processPayment`: the transaction is tried; when it completes it is
      kept and the fine is stamped paid at `now`. A failed one leaves the
      ledger as it was. */
  function ProcessPayment(fm: FineManagement, serial: nat, amount: Cents, via: PaymentMethod, now: int)
    : (r: Step<FineManagement>)
    ensures r.ok <==> !(via.Cash? && via.cashTendered < amount)
    ensures !r.ok ==> r.state == fm
    ensures r.ok ==> r.state.transactions == fm.transactions + [FineTransaction(now, amount, serial, via, Completed)]
    ensures r.ok ==> r.state.serials == fm.serials
  {
    var tx := InitiateTransaction(FineTransaction(now, amount, serial, via, Pending));
    if !tx.ok then Step(false, fm)
    else Step(true, fm.(fines := MarkPaidEverywhere(fm.fines, serial, now), transactions := fm.transactions + [tx.state]))
  }

  /** After a payment completes, the paid fine is no longer among any
      member's unpaid fines, and every other unpaid fine still is. */
  lemma PaymentClearsFine(fm: FineManagement, serial: nat, amount: Cents, via: PaymentMethod, now: int, m: MemberId)
    requires OM.DistinctKeys(fm.fines)
    requires ProcessPayment(fm, serial, amount, via, now).ok
    ensures var after := GetUnpaidFines(ProcessPayment(fm, serial, amount, via, now).state, m);
      && (forall f :: f in after ==> f.serial != serial)
      && (forall f :: f in GetUnpaidFines(fm, m) && f.serial != serial ==> f in after)
  {
  }

  // ----------------------------------------------------------------- library

  datatype Library = Library(
    catalog: Catalog,
    members: seq<(MemberId, Member)>,
    books: seq<(Barcode, BookItem)>,
    librarians: seq<(string, Account)>,
    fineManagement: FineManagement)

  function NewLibrary(now: int): Library
  {
    Library(NewCatalog(now), [], [], [], NewFineManagement)
  }

  /** `generateMemberId`: "M" followed by one more than the number of
      members. */
  function GenerateMemberId(lib: Library): (id: MemberId)
    ensures |id| >= 2 && id[0] == 'M' && IsDigits(id[1..])
    ensures ParseDecimal(id[1..]) == |lib.members| + 1
  {
    var digits := DecimalString(|lib.members| + 1);
    ParseDecimalString(|lib.members| + 1);
    assert ("M" + digits)[1..] == digits;
    "M" + digits
  }

  /** `addMember`: a new active member with a zero fine balance, filed
      under the generated id. */
  function AddMember(lib: Library, password: string): (r: (Library, Member))
    ensures r.1 == Member(Account(GenerateMemberId(lib), password, Active), 0, 0)
    ensures r.0 == lib.(members := OM.Put(lib.members, r.1.account.id, r.1))
  {
    var m := Member(Account(GenerateMemberId(lib), password, Active), 0, 0);
    (lib.(members := OM.Put(lib.members, m.account.id, m)), m)
  }

  /** The member table holds "M1", "M2", ... in order, as `addMember`
      fills it. */
  predicate SequentialIds(lib: Library)
  {
    forall i :: 0 <= i < |lib.members| ==> lib.members[i].0 == "M" + DecimalString(i + 1)
  }

  /** In a member table filled by `addMember`, the generated id is always
      new: the member is appended and no earlier member is overwritten. */
  lemma AddMemberIsFresh(lib: Library, password: string)
    requires SequentialIds(lib)
    ensures !OM.HasKey(lib.members, GenerateMemberId(lib))
    ensures AddMember(lib, password).0.members == lib.members + [(GenerateMemberId(lib), AddMember(lib, password).1)]
    ensures SequentialIds(AddMember(lib, password).0)
  {
    var id := GenerateMemberId(lib);
    GeneratedIdIsNext(lib);
    var m := AddMember(lib, password).1;
    assert OM.Put(lib.members, id, m) == lib.members + [(id, m)];
    SequentialIdsAppend(lib, (id, m));
  }

  /** Appending the next id in the sequence keeps the ids sequential. */
  lemma SequentialIdsAppend(lib: Library, e: (MemberId, Member))
    requires SequentialIds(lib)
    requires e.0 == "M" + DecimalString(|lib.members| + 1)
    ensures SequentialIds(lib.(members := lib.members + [e]))
  {
    var ms := lib.members + [e];
    forall i | 0 <= i < |ms| ensures ms[i].0 == "M" + DecimalString(i + 1) {
      if i < |lib.members| {
        assert ms[i] == lib.members[i];
      }
    }
  }

  /** In a member table filled by `addMember`, the generated id is the next
      number in the sequence, and no member holds it yet. */
  lemma GeneratedIdIsNext(lib: Library)
    requires SequentialIds(lib)
    ensures GenerateMemberId(lib) == "M" + DecimalString(|lib.members| + 1)
    ensures !OM.HasKey(lib.members, GenerateMemberId(lib))
  {
    var n := |lib.members|;
    var id := GenerateMemberId(lib);
    assert id == "M" + DecimalString(n + 1);
    forall i | 0 <= i < n ensures lib.members[i].0 != id {
      IdsDiffer(i + 1, n + 1);
    }
  }

  /** Distinct member numbers give distinct member ids. */
  lemma IdsDiffer(a: nat, b: nat)
    requires a != b
    ensures "M" + DecimalString(a) != "M" + DecimalString(b)
  {
    DecimalStringInjective(a, b);
    assert ("M" + DecimalString(a))[1..] == DecimalString(a);
    assert ("M" + DecimalString(b))[1..] == DecimalString(b);
  }

  /** `addLibrarian`. */
  function AddLibrarian(lib: Library, l: Account): (r: Library)
    ensures OM.Get(r.librarians, l.id) == Some(l)
    ensures forall k :: k != l.id ==> OM.Get(r.librarians, k) == OM.Get(lib.librarians, k)
    ensures r == lib.(librarians := r.librarians)
  {
    var t := OM.Put(lib.librarians, l.id, l);
    forall k ensures OM.Get(t, k) == if k == l.id then Some(l) else OM.Get(lib.librarians, k) {
      OM.PutGet(lib.librarians, l.id, l, k);
    }
    lib.(librarians := t)
  }

  /** `addBookItem`: filed under its barcode and in the catalog; always
      accepted. */
  function AddBookItem(lib: Library, item: BookItem): (r: Library)
    ensures OM.Get(r.books, item.barcode) == Some(item)
    ensures forall b :: b != item.barcode ==> OM.Get(r.books, b) == OM.Get(lib.books, b)
    ensures r.catalog == CatalogAddBook(lib.catalog, item)
    ensures r == lib.(books := r.books, catalog := r.catalog)
  {
    var t := OM.Put(lib.books, item.barcode, item);
    forall b ensures OM.Get(t, b) == if b == item.barcode then Some(item) else OM.Get(lib.books, b) {
      OM.PutGet(lib.books, item.barcode, item, b);
    }
    lib.(books := t, catalog := CatalogAddBook(lib.catalog, item))
  }

  /** `removeBookItem`: true exactly when the barcode was filed. The
      catalog keeps listing the item. */
  function RemoveBookItem(lib: Library, b: Barcode): (r: Step<Library>)
    ensures r.ok <==> OM.HasKey(lib.books, b)
    ensures !OM.HasKey(r.state.books, b)
    ensures forall b' :: b' != b ==> OM.Get(r.state.books, b') == OM.Get(lib.books, b')
    ensures r.state == lib.(books := r.state.books)
  {
    var t := OM.Remove(lib.books, b);
    forall b' | b' != b ensures OM.Get(t, b') == OM.Get(lib.books, b') {
      OM.RemoveGet(lib.books, b, b');
    }
    Step(OM.HasKey(lib.books, b), lib.(books := t))
  }

  /** `Librarian.returnBook` on a filed item, with the fine chain of the
      source: an overdue return records a new fine in the ledger and adds
      its amount to the borrower's balance. */
  function LibraryReturn(lib: Library, b: Barcode, now: int): (r: Step<Library>)
    ensures r.ok <==> OM.HasKey(lib.books, b) && OM.Get(lib.books, b).value.status == Loaned
    ensures !r.ok ==> r.state == lib
    ensures r.ok ==> var item := OM.Get(lib.books, b).value;
      OM.Get(r.state.books, b)
        == Some(item.(status := Available, borrower := None, borrowed := None, dueDate := None))
    ensures forall b' :: b' != b ==> OM.Get(r.state.books, b') == OM.Get(lib.books, b')
    ensures r.state == lib.(books := r.state.books, fineManagement := r.state.fineManagement,
                            members := r.state.members)
    ensures r.state.fineManagement.transactions == lib.fineManagement.transactions
    ensures r.ok ==> var item := OM.Get(lib.books, b).value;
      if IsOverdue(item, now) && item.borrower.Some? then
        && GetMemberFines(r.state.fineManagement, item.borrower.value)
             == GetMemberFines(lib.fineManagement, item.borrower.value)
                + [Fine(lib.fineManagement.serials, CalculateFine(item, now), item.borrower.value,
                        item.barcode, item.dueDate.value, None)]
        && (forall o :: o != item.borrower.value ==>
              GetMemberFines(r.state.fineManagement, o) == GetMemberFines(lib.fineManagement, o))
        && r.state.fineManagement.serials == lib.fineManagement.serials + 1
        && r.state.members == AdjustBalance(lib.members, item.borrower.value, CalculateFine(item, now))
      else
        r.state.fineManagement == lib.fineManagement && r.state.members == lib.members
  {
    match OM.Get(lib.books, b)
    case None => Step(false, lib)
    case Some(item) =>
      var ret := ReturnBook(item, now, lib.fineManagement.serials);
      if !ret.ok then Step(false, lib)
      else
        var t := OM.Put(lib.books, b, ret.item);
        forall b' ensures OM.Get(t, b') == if b' == b then Some(ret.item) else OM.Get(lib.books, b') {
          OM.PutGet(lib.books, b, ret.item, b');
        }
        var lib' := lib.(books := t);
        match ret.fine
        case None => Step(true, lib')
        case Some(f) => Step(true, ChargeFine(lib', f))
  }

  /** `Librarian.issueBook` on a filed item: the copy held in the barcode
      table is the one checked out, so a later return through the table
      finds it loaned. */
  function LibraryIssue(lib: Library, b: Barcode, m: Member, now: int): (r: Step<Library>)
    ensures r.ok <==> OM.HasKey(lib.books, b) && IssueBook(OM.Get(lib.books, b).value, m, now).ok
    ensures !r.ok ==> r.state == lib
    ensures r.ok ==> OM.Get(r.state.books, b) == Some(Checkout(OM.Get(lib.books, b).value, m.account.id, now).state)
    ensures r.ok ==> OM.Get(r.state.books, b).value.status == Loaned
                     && OM.Get(r.state.books, b).value.borrower == Some(m.account.id)
    ensures forall b' :: b' != b ==> OM.Get(r.state.books, b') == OM.Get(lib.books, b')
    ensures r.state == lib.(books := r.state.books)
  {
    match OM.Get(lib.books, b)
    case None => Step(false, lib)
    case Some(item) =>
      var issued := IssueBook(item, m, now);
      if !issued.ok then Step(false, lib)
      else
        var t := OM.Put(lib.books, b, issued.state);
        forall b' ensures OM.Get(t, b') == if b' == b then Some(issued.state) else OM.Get(lib.books, b') {
          OM.PutGet(lib.books, b, issued.state, b');
        }
        Step(true, lib.(books := t))
  }

  /** Issuing a filed item through the library and returning it through the
      library puts the same item back under its barcode. By the due date
      nothing is charged; later, exactly one fine of 150 cents per whole day
      late is filed for the member and added to their balance. */
  lemma LibraryIssueThenReturn(lib: Library, b: Barcode, m: Member, t: int, now: int)
    requires OM.HasKey(lib.books, b)
    requires var item := OM.Get(lib.books, b).value;
      Consistent(item) && item.status == Available && !item.isReferenceOnly
    requires m.account.status == Active
    ensures LibraryIssue(lib, b, m, t).ok
    ensures var item := OM.Get(lib.books, b).value;
      var r := LibraryReturn(LibraryIssue(lib, b, m, t).state, b, now);
      var late := now - t - LoanPeriodMs;
      && r.ok
      && (forall b' :: OM.Get(r.state.books, b') == OM.Get(lib.books, b'))
      && r.state.catalog == lib.catalog
      && (late <= 0 ==> r.state.fineManagement == lib.fineManagement && r.state.members == lib.members)
      && (late > 0 ==>
            && GetMemberFines(r.state.fineManagement, m.account.id)
                 == GetMemberFines(lib.fineManagement, m.account.id)
                    + [Fine(lib.fineManagement.serials, late / DayMs * FinePerDay, m.account.id,
                            item.barcode, t + LoanPeriodMs, None)]
            && r.state.members == AdjustBalance(lib.members, m.account.id, late / DayMs * FinePerDay))
  {
    var item := OM.Get(lib.books, b).value;
    var issued := LibraryIssue(lib, b, m, t).state;
    var loaned := Checkout(item, m.account.id, t).state;
    assert OM.Get(issued.books, b) == Some(loaned);
    CheckoutThenReturn(item, m.account.id, t, now, lib.fineManagement.serials);
    var r := LibraryReturn(issued, b, now).state;
    forall b' ensures OM.Get(r.books, b') == OM.Get(lib.books, b') {
      OM.PutGet(issued.books, b, item, b');
    }
  }

  /** The fine is added to the ledger under its member and to that member's
      balance. */
  function ChargeFine(lib: Library, f: Fine): (r: Library)
    ensures r.fineManagement.serials == lib.fineManagement.serials + 1
    ensures GetMemberFines(r.fineManagement, f.member) == GetMemberFines(lib.fineManagement, f.member) + [f]
    ensures forall o :: o != f.member ==> GetMemberFines(r.fineManagement, o) == GetMemberFines(lib.fineManagement, o)
    ensures r.fineManagement.transactions == lib.fineManagement.transactions
    ensures r.members == AdjustBalance(lib.members, f.member, f.amount)
    ensures r == lib.(fineManagement := r.fineManagement, members := r.members)
  {
    forall o ensures GetMemberFines(AddFine(lib.fineManagement, f.member, f), o)
                     == if o == f.member then GetMemberFines(lib.fineManagement, o) + [f]
                        else GetMemberFines(lib.fineManagement, o) {
      AddFineGet(lib.fineManagement, f.member, f, o);
    }
    var fm := AddFine(lib.fineManagement, f.member, f).(serials := lib.fineManagement.serials + 1);
    lib.(fineManagement := fm, members := AdjustBalance(lib.members, f.member, f.amount))
  }

  /** `member.fineBalance += delta` for a filed member. */
  function AdjustBalance(members: seq<(MemberId, Member)>, m: MemberId, delta: Cents): (r: seq<(MemberId, Member)>)
  {
    match OM.Get(members, m)
    case None => members
    case Some(mem) => OM.Put(members, m, mem.(fineBalance := mem.fineBalance + delta))
  }

  /** The balance of `m` moves by exactly `delta`, and nobody else's moves. */
  lemma AdjustBalanceGet(members: seq<(MemberId, Member)>, m: MemberId, delta: Cents, q: MemberId)
    ensures OM.Get(AdjustBalance(members, m, delta), q)
      == if q == m && OM.Get(members, m).Some?
         then Some(OM.Get(members, m).value.(fineBalance := OM.Get(members, m).value.fineBalance + delta))
         else OM.Get(members, q)
  {
  }

  /** `processFinePayment`: the member's balance drops by the amount only
      when the payment goes through. */
  function ProcessFinePayment(lib: Library, m: MemberId, serial: nat, amount: Cents, via: PaymentMethod, now: int)
    : (r: Step<Library>)
    ensures r.ok <==> !(via.Cash? && via.cashTendered < amount)
    ensures !r.ok ==> r.state == lib
    ensures r.ok ==> r.state.members == AdjustBalance(lib.members, m, -amount)
  {
    var p := ProcessPayment(lib.fineManagement, serial, amount, via, now);
    if !p.ok then Step(false, lib)
    else Step(true, lib.(fineManagement := p.state, members := AdjustBalance(lib.members, m, -amount)))
  }

  /** Raising a balance and lowering it by the same amount restores it. */
  lemma AdjustBalanceRoundTrip(members: seq<(MemberId, Member)>, m: MemberId, delta: Cents)
    ensures AdjustBalance(AdjustBalance(members, m, delta), m, -delta) == members
  {
  }

  /** On success the ledger is the one `processPayment` produced, and
      nothing but the ledger and the member table changes. */
  lemma ProcessFinePaymentLedger(lib: Library, m: MemberId, serial: nat, amount: Cents, via: PaymentMethod, now: int)
    requires ProcessFinePayment(lib, m, serial, amount, via, now).ok
    ensures var r := ProcessFinePayment(lib, m, serial, amount, via, now).state;
      && r.fineManagement == ProcessPayment(lib.fineManagement, serial, amount, via, now).state
      && r == lib.(fineManagement := r.fineManagement, members := r.members)
  {
  }

  lemma PaymentLowersBalance(lib: Library, m: MemberId, serial: nat, amount: Cents, via: PaymentMethod, now: int)
    requires !(via.Cash? && via.cashTendered < amount)
    ensures ProcessFinePayment(lib, m, serial, amount, via, now).ok
    ensures ProcessFinePayment(lib, m, serial, amount, via, now).state.members == AdjustBalance(lib.members, m, -amount)
  {
  }

  /** A fine charged and then paid in full, by card, cheque or enough cash,
      leaves every member's balance where it started. */
  lemma ChargeThenPay(lib: Library, f: Fine, via: PaymentMethod, now: int)
    requires !(via.Cash? && via.cashTendered < f.amount)
    ensures ProcessFinePayment(ChargeFine(lib, f), f.member, f.serial, f.amount, via, now).ok
    ensures ProcessFinePayment(ChargeFine(lib, f), f.member, f.serial, f.amount, via, now).state.members == lib.members
  {
    var charged := ChargeFine(lib, f);
    assert charged.members == AdjustBalance(lib.members, f.member, f.amount);
    PaymentLowersBalance(charged, f.member, f.serial, f.amount, via, now);
    AdjustBalanceRoundTrip(lib.members, f.member, f.amount);
  }
}
