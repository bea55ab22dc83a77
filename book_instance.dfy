/**
 * A physical, loanable copy of a book (`BookInstance`): its loan status, its
 * due date and the derived overdue flag.
 */
module BookInstances {

  import opened Wrappers
  import opened Dates

  /** The four loan statuses of `LOAN_STATUS`, in their declared order. */
  datatype LoanStatus = Maintenance | OnLoan | Available | Reserved

  /** The one-character codes stored in the `status` column, in `LOAN_STATUS` order. */
  const StatusCodes: seq<char> := ['m', 'o', 'a', 'r']

  /** `LOAN_STATUS`: each code with its label. */
  const LoanStatusChoices: seq<(char, string)> :=
    [('m', "Maintainance"), ('o', "On Loan"), ('a', "Available"), ('r', "Reserved")]

  /** The status a new copy gets when none is given. */
  const DefaultStatus: LoanStatus := Maintenance

  /** The code stored for a status. */
  function Code(s: LoanStatus): (c: char)
    ensures c in StatusCodes
  {
    match s
    case Maintenance => 'm'
    case OnLoan => 'o'
    case Available => 'a'
    case Reserved => 'r'
  }

  /** The human-readable label of a status, spelled as the choices list spells it. */
  function Label(s: LoanStatus): (text: string)
    ensures (Code(s), text) in LoanStatusChoices
  {
    match s
    case Maintenance => "Maintainance"
    case OnLoan => "On Loan"
    case Available => "Available"
    case Reserved => "Reserved"
  }

  /** Reads a stored code back; only the four declared codes name a status. */
  function FromCode(c: char): (r: Option<LoanStatus>)
    ensures r.Some? <==> c in StatusCodes
  {
    if c == 'm' then Some(Maintenance)
    else if c == 'o' then Some(OnLoan)
    else if c == 'a' then Some(Available)
    else if c == 'r' then Some(Reserved)
    else None
  }

  /** Every status reads back from its code. */
  lemma CodeRoundTrip(s: LoanStatus)
    ensures FromCode(Code(s)) == Some(s)
  {
  }

  /** Every declared code is the code of the status it reads as. */
  lemma FromCodeRoundTrip(c: char)
    requires c in StatusCodes
    ensures FromCode(c).Some? && Code(FromCode(c).value) == c
  {
  }

  /** Distinct statuses have distinct codes. */
  lemma CodesDistinct(s: LoanStatus, t: LoanStatus)
    ensures Code(s) == Code(t) <==> s == t
  {
  }

  /** The default status is stored as 'm'. */
  lemma DefaultIsMaintenance()
    ensures Code(DefaultStatus) == 'm' && Label(DefaultStatus) == "Maintainance"
  {
  }

  /** Identifier of a `Book` row, the target of the nullable `book` foreign key. */
  type BookId = nat

  /** Identifier of a `User` row, the target of the nullable `borrower` foreign key. */
  type UserId = nat

  /** A copy's UUID primary key, as its 128-bit value. */
  type Uuid = n: nat | n < 0x1_0000_0000_0000_0000_0000_0000_0000_0000

  datatype BookInstance = BookInstance(
    id: Uuid,
    book: Option<BookId>,
    imprint: string,
    dueBack: Option<Date>,
    borrower: Option<UserId>,
    status: LoanStatus)

  /**
   * A copy as created when only its identity, book and imprint are given: no
   * due date, no borrower and the default status.
   */
  function NewBookInstance(id: Uuid, book: Option<BookId>, imprint: string): (b: BookInstance)
    ensures b.id == id && b.book == book && b.imprint == imprint
    ensures b.dueBack == None && b.borrower == None
    ensures b.status == Maintenance && Code(b.status) == 'm'
  {
    BookInstance(id, book, imprint, None, None, DefaultStatus)
  }

  /** `is_overdue`: the copy has a due date and today is past it. */
  function IsOverdue(b: BookInstance, today: Date): (overdue: bool)
    ensures overdue ==> b.dueBack.Some? && b.dueBack.value < today
    ensures b.dueBack.Some? && b.dueBack.value < today ==> overdue
    ensures b.dueBack == None ==> !overdue
  {
    b.dueBack.Some? && today > b.dueBack.value
  }

  /** A copy is overdue on `today` exactly when its due date is set and lies strictly before `today`. */
  lemma OverdueIff(b: BookInstance, today: Date)
    ensures IsOverdue(b, today) <==> exists d: Date :: b.dueBack == Some(d) && d < today
  {
  }

  /** A copy without a due date is never overdue, whatever today is. */
  lemma NoDueDateNeverOverdue(b: BookInstance, today: Date)
    requires b.dueBack == None
    ensures !IsOverdue(b, today)
  {
  }

  /** Once overdue, a copy stays overdue on every later day (until its due date is changed). */
  lemma OverdueMonotone(b: BookInstance, today: Date, later: Date)
    requires today <= later
    ensures IsOverdue(b, today) ==> IsOverdue(b, later)
  {
  }

  /** A new copy is not overdue. */
  lemma NewInstanceNotOverdue(id: Uuid, book: Option<BookId>, imprint: string, today: Date)
    ensures !IsOverdue(NewBookInstance(id, book, imprint), today)
  {
  }
}
