/** The finance console: the input screens that accept, refuse or cancel a typed line,
    the prompt loop that repeats a screen until it decides, and the bookkeeping of a
    withdrawal on the savings account. */
module FinanceApp {
  import opened Wrappers
  import opened Text
  import opened Accounts

  // ---------------------------------------------------------------------------
  // Input screens
  // ---------------------------------------------------------------------------

  /** What a screen makes of one typed line: give up, take a value, or ask again. */
  datatype Decision<T> = Cancel | Accept(value: T) | Reprompt

  /** The text returned to the caller: the source signals a cancel with `""`. */
  function Returned(d: Decision<string>): string
    requires !d.Reprompt?
  {
    if d.Cancel? then "" else d.value
  }

  /** The cancel rule of the text screens, applied to the trimmed line: a null or
      empty line, or `cancel` in any letter case. */
  predicate CancelRequested(input: string) {
    input == "" || ToLower(input) == "cancel"
  }

  /** A string of digits is never a cancel request: it is not empty and its first
      character does not lower to `c`. */
  lemma DigitsAreNotCancel(s: string)
    requires |s| > 0 && AllDigits(s)
    ensures !CancelRequested(s)
  {
    assert ToLower(s)[0] == s[0];
  }

  /** `GetPhoneNumber`: exactly ten digits. */
  function PhoneDecision(line: Option<string>): (d: Decision<string>)
    ensures var t := TrimmedLine(line);
      && (d.Accept? <==> |t| == 10 && AllDigits(t))
      && (d.Cancel? <==> CancelRequested(t))
      && (d.Accept? ==> d.value == t)
  {
    var t := TrimmedLine(line);
    if |t| == 10 && AllDigits(t) then DigitsAreNotCancel(t); assert !CancelRequested(t); Accept(t)
    else if CancelRequested(t) then Cancel
    else Reprompt
  }

  /** `GetBankAccountNumber`: at least eight digits. */
  function BankAccountDecision(line: Option<string>): (d: Decision<string>)
    ensures var t := TrimmedLine(line);
      && (d.Accept? <==> |t| >= 8 && AllDigits(t))
      && (d.Cancel? <==> CancelRequested(t))
      && (d.Accept? ==> d.value == t)
  {
    var t := TrimmedLine(line);
    if |t| >= 8 && AllDigits(t) then DigitsAreNotCancel(t); Accept(t)
    else if CancelRequested(t) then Cancel
    else Reprompt
  }

  predicate LettersAndSpaces(s: string) {
    forall i :: 0 <= i < |s| ==> IsLetter(s[i]) || IsWhiteSpace(s[i])
  }

  /** `GetAccountHolderName`: at least two characters, each a letter or white space;
      the word `cancel` itself is taken as a cancel, not as a name. */
  function HolderNameDecision(line: Option<string>): (d: Decision<string>)
    ensures var t := TrimmedLine(line);
      && (d.Accept? <==> !CancelRequested(t) && |t| >= 2 && LettersAndSpaces(t))
      && (d.Cancel? <==> CancelRequested(t))
      && (d.Accept? ==> d.value == t)
  {
    var t := TrimmedLine(line);
    if CancelRequested(t) then Cancel
    else if |t| >= 2 && LettersAndSpaces(t) then Accept(t)
    else Reprompt
  }

  /** `GetCryptoWalletAddress`: a `Length` of 26 to 62 UTF-16 code units, whatever the
      characters. */
  function WalletDecision(line: Option<string>): (d: Decision<string>)
    ensures var t := TrimmedLine(line);
      && (d.Accept? <==> 26 <= Utf16Length(t) <= 62)
      && (d.Cancel? <==> CancelRequested(t))
      && (d.Accept? ==> d.value == t)
  {
    var t := TrimmedLine(line);
    if CancelRequested(t) then (assert Utf16Length(t) <= 12; Cancel)
    else if 26 <= Utf16Length(t) <= 62 then Accept(t)
    else Reprompt
  }

  /** `GetCustomCategory`: a non-blank line of at most 50 UTF-16 code units after
      trimming. This screen offers no way out: a null line is simply asked again. */
  function CategoryDecision(line: Option<string>): (d: Decision<string>)
    ensures var t := TrimmedLine(line);
      && !d.Cancel?
      && (d.Accept? <==> 1 <= |t| && Utf16Length(t) <= 50)
      && (d.Accept? ==> d.value == t)
  {
    var t := TrimmedLine(line);
    if !IsBlank(t) && Utf16Length(t) <= 50 then Accept(t)
    else (assert |t| > 0 ==> !IsWhiteSpace(t[0]); Reprompt)
  }

  /** Twenty characters beyond the Basic Multilingual Plane make a `Length` of 40, a
      valid wallet length, while twenty-six such characters are over the category
      limit of 50. */
  lemma AstralCharactersCountTwice(c: char)
    requires (c as int) >= 0x1_0000
    ensures Utf16Length(seq(20, _ => c)) == 40
    ensures Utf16Length(seq(26, _ => c)) == 52
  {
    AllAstral(seq(20, _ => c));
    AllAstral(seq(26, _ => c));
  }

  /** A text made only of characters beyond the Basic Multilingual Plane has twice as
      many code units as characters. */
  lemma {:induction false} AllAstral(s: string)
    requires forall i :: 0 <= i < |s| ==> (s[i] as int) >= 0x1_0000
    ensures Utf16Length(s) == 2 * |s|
    decreases |s|
  {
    if |s| > 0 {
      AllAstral(s[1..]);
    }
  }

  /** `GetDepositAmount` on the parsed amount (`None` when `decimal.TryParse` fails):
      zero cancels, a positive amount is taken, anything else is asked again. */
  function DepositAmountDecision(amount: Option<int>): (d: Decision<int>)
    ensures d.Cancel? <==> amount == Some(0)
    ensures d.Accept? <==> amount.Some? && amount.value > 0
    ensures d.Accept? ==> d.value == amount.value
  {
    match amount
    case None => Reprompt
    case Some(a) => if a == 0 then Cancel else if a > 0 then Accept(a) else Reprompt
  }

  /** The text screens never accept the empty string, so the caller's `""` test tells
      a cancel from an answer exactly. */
  lemma EmptyResultMeansCancel(line: Option<string>)
    ensures !PhoneDecision(line).Reprompt? ==> (Returned(PhoneDecision(line)) == "" <==> PhoneDecision(line).Cancel?)
    ensures !BankAccountDecision(line).Reprompt? ==> (Returned(BankAccountDecision(line)) == "" <==> BankAccountDecision(line).Cancel?)
    ensures !HolderNameDecision(line).Reprompt? ==> (Returned(HolderNameDecision(line)) == "" <==> HolderNameDecision(line).Cancel?)
    ensures !WalletDecision(line).Reprompt? ==> (Returned(WalletDecision(line)) == "" <==> WalletDecision(line).Cancel?)
  {
  }

  /** Any spelling of `cancel` is a name of letters, yet it is read as a cancel. */
  lemma CancelWordIsNotAName(s: string)
    requires ToLower(s) == "cancel"
    ensures LettersAndSpaces(s) && |s| >= 2
    ensures HolderNameDecision(Some(s)) == Cancel
  {
    assert ToLower(s)[0] == 'c' && ToLower(s)[5] == 'l';
    forall i | 0 <= i < |s| ensures IsLetter(s[i]) {
      assert IsLetter(ToLower(s)[i]);
    }
    assert TrimmedLine(Some(s)) == s by {
      TrimNoOp(s);
    }
  }

  // ---------------------------------------------------------------------------
  // Prompt loop
  // ---------------------------------------------------------------------------

  /** Where a `while (true)` prompt loop ends: a cancel, an answer, or never, when
      every line is asked again and `Console.ReadLine()` keeps returning null once the
      input is exhausted. */
  datatype Answer<T> = Cancelled | Answered(value: T) | NoAnswer

  /** Line `i` of the input; past its end the console reads null. */
  function ReadAt(lines: seq<Option<string>>, i: nat): Option<string> {
    if i < |lines| then lines[i] else None
  }

  function Settle<T>(d: Decision<T>): Answer<T> {
    match d
    case Cancel => Cancelled
    case Accept(v) => Answered(v)
    case Reprompt => NoAnswer
  }

  /** The loop: read a line, decide, and read again on `Reprompt`. Once the input is
      used up, the null line is decided once more; if that is `Reprompt` too, the loop
      would spin forever. */
  function Ask<T>(decide: Option<string> -> Decision<T>, lines: seq<Option<string>>): Answer<T>
    decreases |lines|
  {
    var d := decide(ReadAt(lines, 0));
    if d.Reprompt? && |lines| > 0 then Ask(decide, lines[1..]) else Settle(d)
  }

  /** Line `i` is the first whose decision is not `Reprompt`. */
  predicate FirstDecided<T>(decide: Option<string> -> Decision<T>, lines: seq<Option<string>>, i: nat) {
    && !decide(ReadAt(lines, i)).Reprompt?
    && forall j: nat :: j < i ==> decide(ReadAt(lines, j)).Reprompt?
  }

  lemma ReadAtTail(lines: seq<Option<string>>, i: nat)
    requires |lines| > 0
    ensures ReadAt(lines[1..], i) == ReadAt(lines, i + 1)
  {
  }

  /** The loop ends with the decision of the first line that does not ask again, and
      gives no answer exactly when every line up to the first null read asks again. */
  lemma {:induction false} AskTakesFirstDecision<T>(decide: Option<string> -> Decision<T>, lines: seq<Option<string>>)
    ensures Ask(decide, lines).NoAnswer? <==> forall i: nat :: i <= |lines| ==> decide(ReadAt(lines, i)).Reprompt?
    ensures forall i: nat :: i <= |lines| && FirstDecided(decide, lines, i) ==> Ask(decide, lines) == Settle(decide(ReadAt(lines, i)))
    decreases |lines|
  {
    var d := decide(ReadAt(lines, 0));
    if d.Reprompt? && |lines| > 0 {
      var tail := lines[1..];
      AskTakesFirstDecision(decide, tail);
      forall i: nat | i <= |tail| ensures decide(ReadAt(tail, i)) == decide(ReadAt(lines, i + 1)) {
        ReadAtTail(lines, i);
      }
      if Ask(decide, lines).NoAnswer? {
        forall i: nat | i <= |lines| ensures decide(ReadAt(lines, i)).Reprompt? {
          if i > 0 {
            assert decide(ReadAt(tail, i - 1)).Reprompt?;
          }
        }
      }
      forall i: nat | i <= |lines| && FirstDecided(decide, lines, i)
        ensures Ask(decide, lines) == Settle(decide(ReadAt(lines, i)))
      {
        assert i > 0;
        forall j: nat | j < i - 1 ensures decide(ReadAt(tail, j)).Reprompt? {
          assert decide(ReadAt(lines, j + 1)).Reprompt?;
        }
        assert FirstDecided(decide, tail, i - 1);
      }
    } else {
      forall i: nat | i <= |lines| && FirstDecided(decide, lines, i)
        ensures Ask(decide, lines) == Settle(decide(ReadAt(lines, i)))
      {
      }
    }
  }

  /** The four cancellable text screens always end: at the latest, the null read at
      the end of the input cancels them. */
  lemma CancellableScreensEnd(lines: seq<Option<string>>)
    ensures !Ask(PhoneDecision, lines).NoAnswer?
    ensures !Ask(BankAccountDecision, lines).NoAnswer?
    ensures !Ask(HolderNameDecision, lines).NoAnswer?
    ensures !Ask(WalletDecision, lines).NoAnswer?
  {
    AskTakesFirstDecision(PhoneDecision, lines);
    assert ReadAt(lines, |lines|) == None;
    AskTakesFirstDecision(BankAccountDecision, lines);
    AskTakesFirstDecision(HolderNameDecision, lines);
    AskTakesFirstDecision(WalletDecision, lines);
  }

  /** The custom category screen can never be cancelled, and if no line is acceptable
      it never returns. */
  lemma CategoryScreenHasNoWayOut(lines: seq<Option<string>>)
    ensures !Ask(CategoryDecision, lines).Cancelled?
    ensures (forall i :: 0 <= i < |lines| ==> !CategoryDecision(lines[i]).Accept?) ==> Ask(CategoryDecision, lines).NoAnswer?
  {
    AskTakesFirstDecision(CategoryDecision, lines);
    if !Ask(CategoryDecision, lines).NoAnswer? {
      var k: nat :| k <= |lines| && !CategoryDecision(ReadAt(lines, k)).Reprompt?;
      var i := FirstAt(CategoryDecision, lines, k);
      assert !CategoryDecision(ReadAt(lines, i)).Cancel?;
    }
  }

  /** The first position at or before `k` whose decision is not `Reprompt`. */
  lemma {:induction false} FirstAt<T>(decide: Option<string> -> Decision<T>, lines: seq<Option<string>>, k: nat) returns (i: nat)
    requires !decide(ReadAt(lines, k)).Reprompt?
    ensures i <= k && FirstDecided(decide, lines, i)
    decreases k
  {
    if exists j: nat :: j < k && !decide(ReadAt(lines, j)).Reprompt? {
      var j: nat :| j < k && !decide(ReadAt(lines, j)).Reprompt?;
      i := FirstAt(decide, lines, j);
    } else {
      i := k;
    }
  }

  // ---------------------------------------------------------------------------
  // Withdrawals
  // ---------------------------------------------------------------------------

  /** The state a withdrawal touches: the savings account, the next transaction id
      and the recorded transactions. */
  datatype Ledger = Ledger(account: Account, nextId: int, transactions: seq<Transaction>)

  /** The three values a transfer dialogue returns. */
  datatype Transfer = Transfer(success: bool, amount: int, category: string)

  /** The ledger `Run` starts with: `SavingsAccount("SAV-001", 1000)` in cents, id 1,
      no transactions. */
  function InitialLedger(): (l: Ledger)
    ensures l.account.kind == Savings && l.account.balance == 100000
    ensures l.nextId == 1 && l.transactions == []
  {
    Ledger(NewAccount(Savings, "SAV-001", 100000), 1, [])
  }

  /** `ProcessWithdrawalTransaction`: a cancelled selection (0) or a failed transfer
      changes nothing; a processor choice outside 1..3 runs no dialogue and so fails.
      Otherwise the transaction takes the current id, which then advances, is applied
      to the account and is recorded, even when the savings account refuses it. */
  function ProcessWithdrawal(l: Ledger, accountType: int, processorType: int, transfer: Transfer, now: Date): (r: Ledger)
    ensures accountType == 0 || processorType == 0 || !(1 <= processorType <= 3) || !transfer.success ==> r == l
    ensures accountType != 0 && 1 <= processorType <= 3 && transfer.success ==>
      var t := Transaction(l.nextId, now, transfer.amount, transfer.category);
      && r.transactions == l.transactions + [t]
      && r.nextId == l.nextId + 1
      && r.account == ApplyTransaction(l.account, t)
  {
    if accountType == 0 || processorType == 0 then l
    else
      var outcome := if 1 <= processorType <= 3 then transfer else Transfer(false, 0, "");
      if !outcome.success then l
      else
        var t := Transaction(l.nextId, now, outcome.amount, outcome.category);
        Ledger(ApplyTransaction(l.account, t), l.nextId + 1, l.transactions + [t])
  }

  /** The ledger invariant: the account is a savings account that is not overdrawn, and
      the recorded ids increase strictly and stay below the next id. */
  predicate Sound(l: Ledger) {
    && l.account.kind == Savings
    && l.account.balance >= 0
    && (forall i, j :: 0 <= i < j < |l.transactions| ==> l.transactions[i].id < l.transactions[j].id)
    && (forall i :: 0 <= i < |l.transactions| ==> l.transactions[i].id < l.nextId)
  }

  lemma InitialLedgerIsSound()
    ensures Sound(InitialLedger())
  {
  }

  /** Every withdrawal keeps the ledger sound, so recorded ids are unique. */
  lemma ProcessWithdrawalKeepsSound(l: Ledger, accountType: int, processorType: int, transfer: Transfer, now: Date)
    requires Sound(l)
    ensures Sound(ProcessWithdrawal(l, accountType, processorType, transfer, now))
  {
  }

  /** A withdrawal above the balance is refused by the account yet still recorded,
      and it uses up an id. */
  lemma RefusedWithdrawalIsRecorded(l: Ledger, transfer: Transfer, now: Date)
    requires l.account.kind == Savings
    requires transfer.success && transfer.amount > l.account.balance
    ensures var r := ProcessWithdrawal(l, 1, 1, transfer, now);
      && r.account == l.account
      && |r.transactions| == |l.transactions| + 1
      && r.transactions[|l.transactions|].amount == transfer.amount
      && r.nextId == l.nextId + 1
  {
  }
}
