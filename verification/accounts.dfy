/** `Account` and its sealed subclass `SavingsAccount`: a balance that deposits raise
    and transactions lower. Money (`decimal`) is counted in whole minor units. */
module Accounts {
  import opened Wrappers

  /** `Transaction(Id, Date, Amount, Category)`. */
  datatype Transaction = Transaction(id: int, date: Date, amount: int, category: string)

  /** Which `ApplyTransaction` runs: the base class's or the savings override. */
  datatype Kind = Plain | Savings

  datatype Account = Account(kind: Kind, accountNumber: string, balance: int)

  /** `new Account(...)` / `new SavingsAccount(...)`: nothing is validated. */
  function NewAccount(kind: Kind, accountNumber: string, initialBalance: int): (a: Account)
    ensures a.kind == kind && a.accountNumber == accountNumber && a.balance == initialBalance
  {
    Account(kind, accountNumber, initialBalance)
  }

  /** `Deposit`: a non-positive amount is refused and changes nothing. */
  function Deposit(a: Account, amount: int): (r: Account)
    ensures r.kind == a.kind && r.accountNumber == a.accountNumber
    ensures amount <= 0 ==> r == a
    ensures amount > 0 ==> r.balance == a.balance + amount
  {
    if amount <= 0 then a else a.(balance := a.balance + amount)
  }

  /** `ApplyTransaction`, dispatched on the runtime class: the base version always
      deducts, even below zero; the savings version refuses an amount above the
      balance and deducts otherwise, so the whole balance may be withdrawn. */
  function ApplyTransaction(a: Account, t: Transaction): (r: Account)
    ensures r.kind == a.kind && r.accountNumber == a.accountNumber
    ensures a.kind == Plain ==> r.balance == a.balance - t.amount
    ensures a.kind == Savings && t.amount > a.balance ==> r == a
    ensures a.kind == Savings && t.amount <= a.balance ==> r.balance == a.balance - t.amount
  {
    match a.kind
    case Plain => a.(balance := a.balance - t.amount)
    case Savings => if t.amount > a.balance then a else a.(balance := a.balance - t.amount)
  }

  /** A call on an account: `Deposit(amount)` or `ApplyTransaction(t)`. */
  datatype Operation = DepositOp(amount: int) | ApplyOp(t: Transaction)

  function Perform(a: Account, op: Operation): Account {
    match op
    case DepositOp(amount) => Deposit(a, amount)
    case ApplyOp(t) => ApplyTransaction(a, t)
  }

  /** The account after the calls in order. */
  function RunAll(a: Account, ops: seq<Operation>): Account
    decreases |ops|
  {
    if |ops| == 0 then a else RunAll(Perform(a, ops[0]), ops[1..])
  }

  /** A savings account that starts at or above zero never goes below it, whatever
      deposits and transactions it receives, and keeps its number. */
  lemma {:induction false} SavingsStaysNonNegative(a: Account, ops: seq<Operation>)
    requires a.kind == Savings && a.balance >= 0
    ensures RunAll(a, ops).balance >= 0
    ensures RunAll(a, ops).accountNumber == a.accountNumber && RunAll(a, ops).kind == Savings
    decreases |ops|
  {
    if |ops| > 0 {
      SavingsStaysNonNegative(Perform(a, ops[0]), ops[1..]);
    }
  }

  /** A positive deposit followed by a transaction of the same amount on a base account
      restores the balance; on a savings account it does too, provided the balance was
      not negative. */
  lemma DepositThenApplyRestores(a: Account, amount: int, t: Transaction)
    requires amount > 0 && t.amount == amount
    requires a.kind == Savings ==> a.balance >= 0
    ensures ApplyTransaction(Deposit(a, amount), t) == a
  {
  }

  /** A savings account can be emptied exactly: withdrawing the whole balance is
      allowed and leaves zero, while one unit more is refused. */
  lemma SavingsFullWithdrawal(a: Account, t: Transaction)
    requires a.kind == Savings
    ensures t.amount == a.balance ==> ApplyTransaction(a, t).balance == 0
    ensures t.amount == a.balance + 1 ==> ApplyTransaction(a, t) == a
  {
  }

  /** The base account has no overdraft guard: a transaction on an empty account
      leaves it negative. */
  lemma PlainAccountCanOverdraw(a: Account, t: Transaction)
    requires a.kind == Plain && a.balance == 0 && t.amount > 0
    ensures ApplyTransaction(a, t).balance < 0
  {
  }
}
