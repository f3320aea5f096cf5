/**
 * The rules of `handleFormSubmit` as a step function on the store's state:
 * presence check, duplicate check, then append (new record) or replace in
 * place (edit), with the edit marker afterwards.
 */
module Submission {
  import opened Wrappers
  import opened Text
  import opened Accounts

  /** What the submit handler reports through its alerts. */
  datatype Outcome = MissingRequiredField | DuplicateAccountNumber | Saved | SaveFailed

  /** The store's state: the `accounts` list and the `editingAccountId` marker. */
  datatype State = State(accounts: seq<Account>, editingId: Option<string>)

  datatype Step = Step(state: State, outcome: Outcome)

  /**
   * Line 92's test: bank code, account number or holder is empty once
   * trimmed, which is to say made of white space only.
   */
  function MissingRequired(d: Draft): (b: bool)
    ensures b <==> AllSpace(d.bankName) || AllSpace(d.accountNumber) || AllSpace(d.accountHolder)
  {
    TrimEmptyIff(d.bankName);
    TrimEmptyIff(d.accountNumber);
    TrimEmptyIff(d.accountHolder);
    Trim(d.bankName) == "" || Trim(d.accountNumber) == "" || Trim(d.accountHolder) == ""
  }

  /** JavaScript truthiness of `editingAccountId`: neither null nor the empty string. */
  predicate IsEditing(marker: Option<string>) {
    marker.Some? && marker.value != ""
  }

  /**
   * The test of `isDuplicateAccount`: same number, and not the record being
   * edited (with a null marker, `acc.id !== null` holds for every record).
   */
  function DuplicateOf(number: string, marker: Option<string>): Account -> bool {
    (acc: Account) => acc.accountNumber == number && (marker.None? || acc.id != marker.value)
  }

  /** `isDuplicateAccount`: some record other than the one being edited has this number. */
  function IsDuplicate(accounts: seq<Account>, number: string, marker: Option<string>): (b: bool)
    ensures b <==> exists k :: 0 <= k < |accounts| && accounts[k].accountNumber == number && (marker.None? || accounts[k].id != marker.value)
  {
    Any(accounts, DuplicateOf(number, marker))
  }

  /**
   * `acc` is the record the submit handler builds from the form under `id` at
   * time `now`: bank code, number and holder trimmed, every other field
   * copied as read, the numeric ones as numbers.
   */
  predicate FromDraft(acc: Account, id: string, d: Draft, now: string) {
    && acc.id == id && acc.lastUpdated == now
    && acc.bankName == Trim(d.bankName) && acc.accountNumber == Trim(d.accountNumber)
    && acc.accountHolder == Trim(d.accountHolder)
    && acc.accountType == d.accountType && acc.openingDate == d.openingDate
    && acc.currency == d.currency && acc.status == d.status
    && acc.startDate == d.startDate && acc.maturityDate == d.maturityDate
    && acc.riskLevel == d.riskLevel
    && acc.balance == Num(d.balance) && acc.monthlyFee == Num(d.monthlyFee)
    && acc.fixedAmount == Num(d.fixedAmount) && acc.interestRate == Num(d.interestRate)
    && acc.initialInvestment == Num(d.initialInvestment) && acc.currentValue == Num(d.currentValue)
  }

  /** The record object built by the submit handler. */
  function MakeAccount(id: string, d: Draft, now: string): (acc: Account)
    ensures FromDraft(acc, id, d, now)
  {
    Account(id, Trim(d.bankName), d.accountType, Trim(d.accountNumber), Trim(d.accountHolder),
      d.openingDate, Num(d.balance), d.currency, d.status, Num(d.monthlyFee), Num(d.fixedAmount),
      Num(d.interestRate), d.startDate, d.maturityDate, Num(d.initialInvestment), Num(d.currentValue),
      d.riskLevel, now)
  }

  /**
   * The change once the checks passed: replace the first record with the
   * marked id (or nothing, if none has it) and clear the marker, or append a
   * new record. After a successful write the form is cleared, which clears
   * the marker too; after a failed write the list keeps the change.
   */
  function Commit(st: State, d: Draft, freshId: string, now: string, storageOk: bool): Step {
    var outcome := if storageOk then Saved else SaveFailed;
    var marker := if IsEditing(st.editingId) || storageOk then None else st.editingId;
    Step(State(Committed(st, d, freshId, now), marker), outcome)
  }

  /** The list once the checks passed, whatever the storage write then does. */
  function Committed(st: State, d: Draft, freshId: string, now: string): seq<Account> {
    if IsEditing(st.editingId) then
      var id := st.editingId.value;
      var i := FindIndex(st.accounts, id);
      if i == -1 then st.accounts else st.accounts[i := MakeAccount(id, d, now)]
    else
      st.accounts + [MakeAccount(freshId, d, now)]
  }


  /**
   * `handleFormSubmit`, as written: the duplicate check is skipped whenever
   * the marker is set. `freshId` is what the clock would give as a new id,
   * `now` the time stamp, `storageOk` whether the storage write succeeds.
   */
  function Submit(st: State, d: Draft, freshId: string, now: string, storageOk: bool): (r: Step)
    ensures r.state == st <==> r.outcome == MissingRequiredField || r.outcome == DuplicateAccountNumber
    ensures r.outcome == Saved ==> storageOk
    ensures r.outcome == SaveFailed ==> !storageOk
  {
    if MissingRequired(d) then Step(st, MissingRequiredField)
    else if IsDuplicate(st.accounts, Trim(d.accountNumber), st.editingId) && !IsEditing(st.editingId) then
      Step(st, DuplicateAccountNumber)
    else Commit(st, d, freshId, now, storageOk)
  }

  /** `Submit` case by case: the two refusals, and the change once the checks passed. */
  lemma SubmitSteps(st: State, d: Draft, freshId: string, now: string, storageOk: bool)
    ensures var r := Submit(st, d, freshId, now, storageOk);
      var refusedDuplicate := IsDuplicate(st.accounts, Trim(d.accountNumber), st.editingId) && !IsEditing(st.editingId);
      && (MissingRequired(d) ==> r == Step(st, MissingRequiredField))
      && (!MissingRequired(d) && refusedDuplicate ==> r == Step(st, DuplicateAccountNumber))
      && (!MissingRequired(d) && !refusedDuplicate ==>
            && r.state.accounts == Committed(st, d, freshId, now)
            && r.outcome == (if storageOk then Saved else SaveFailed)
            && r.state.editingId == (if IsEditing(st.editingId) || storageOk then None else st.editingId))
  {
  }

  /** The submit is refused as incomplete exactly when a required field is blank, and then nothing changes. */
  lemma SubmitMissingField(st: State, d: Draft, freshId: string, now: string, storageOk: bool)
    ensures var r := Submit(st, d, freshId, now, storageOk);
      && (r.outcome == MissingRequiredField <==> AllSpace(d.bankName) || AllSpace(d.accountNumber) || AllSpace(d.accountHolder))
      && (r.outcome == MissingRequiredField ==> r.state == st)
  {
    TrimEmptyIff(d.bankName);
    TrimEmptyIff(d.accountNumber);
    TrimEmptyIff(d.accountHolder);
  }

  /**
   * The submit is refused as a duplicate exactly when the fields are present,
   * the marker is not set, and another record has the trimmed number; then
   * nothing changes.
   */
  lemma SubmitDuplicate(st: State, d: Draft, freshId: string, now: string, storageOk: bool)
    ensures var r := Submit(st, d, freshId, now, storageOk);
      && (r.outcome == DuplicateAccountNumber <==>
           !MissingRequired(d) && !IsEditing(st.editingId) && IsDuplicate(st.accounts, Trim(d.accountNumber), st.editingId))
      && (r.outcome == DuplicateAccountNumber ==> r.state == st)
      && (IsEditing(st.editingId) ==> r.outcome != DuplicateAccountNumber)
  {
  }

  /**
   * A new record: exactly one record is appended, carrying the new id, every
   * field of the form and the time stamp; the records before it are
   * untouched, the count grows by one and the total by the balance.
   */
  lemma SubmitAppends(st: State, d: Draft, freshId: string, now: string, storageOk: bool)
    requires !MissingRequired(d) && !IsEditing(st.editingId)
    requires !IsDuplicate(st.accounts, Trim(d.accountNumber), st.editingId)
    ensures var r := Submit(st, d, freshId, now, storageOk);
      var a, n := r.state.accounts, |st.accounts|;
      && |a| == n + 1
      && a[..n] == st.accounts
      && FromDraft(a[n], freshId, d, now)
      && UpdateSummary(a) == Summary(n + 1, Total(st.accounts) + d.balance)
      && r.outcome == (if storageOk then Saved else SaveFailed)
      && r.state.editingId == (if storageOk then None else st.editingId)
  {
    var a := Submit(st, d, freshId, now, storageOk).state.accounts;
    var last := MakeAccount(freshId, d, now);
    TotalAppend(st.accounts, [last]);
    assert [last][..0] == [];
  }

  /**
   * An edit: the first record with the marked id is replaced by the draft's
   * record under that same id; every other record, the length and the order
   * are kept, the duplicate check is skipped and the marker is cleared.
   */
  lemma SubmitReplaces(st: State, d: Draft, freshId: string, now: string, storageOk: bool, i: int)
    requires !MissingRequired(d) && IsEditing(st.editingId)
    requires 0 <= i < |st.accounts| && st.accounts[i].id == st.editingId.value
    requires forall k :: 0 <= k < i ==> st.accounts[k].id != st.editingId.value
    ensures var r := Submit(st, d, freshId, now, storageOk);
      var a := r.state.accounts;
      && |a| == |st.accounts|
      && (forall k :: 0 <= k < |a| && k != i ==> a[k] == st.accounts[k])
      && FromDraft(a[i], st.accounts[i].id, d, now)
      && r.state.editingId == None
      && r.outcome == (if storageOk then Saved else SaveFailed)
  {
    assert FindIndex(st.accounts, st.editingId.value) == i;
  }

  /** An edit whose id no record has any more changes no record and still clears the marker. */
  lemma SubmitEditMissing(st: State, d: Draft, freshId: string, now: string, storageOk: bool)
    requires !MissingRequired(d) && IsEditing(st.editingId)
    requires forall k :: 0 <= k < |st.accounts| ==> st.accounts[k].id != st.editingId.value
    ensures Submit(st, d, freshId, now, storageOk).state == State(st.accounts, None)
  {
  }

  /** A failed storage write does not roll the list back: it ends as after a successful write. */
  lemma SubmitNoRollback(st: State, d: Draft, freshId: string, now: string)
    ensures Submit(st, d, freshId, now, false).state.accounts == Submit(st, d, freshId, now, true).state.accounts
    ensures Submit(st, d, freshId, now, false).outcome in {MissingRequiredField, DuplicateAccountNumber, SaveFailed}
  {
  }

  /** No two records share an id. */
  ghost predicate UniqueIds(accounts: seq<Account>) {
    forall j, k :: 0 <= j < k < |accounts| ==> accounts[j].id != accounts[k].id
  }

  /** No two records share an account number. */
  ghost predicate UniqueNumbers(accounts: seq<Account>) {
    forall j, k :: 0 <= j < k < |accounts| ==> accounts[j].accountNumber != accounts[k].accountNumber
  }

  /** Submitting keeps ids unique when the new id is not already taken: an edit keeps the id it replaces. */
  lemma SubmitKeepsIdsUnique(st: State, d: Draft, freshId: string, now: string, storageOk: bool)
    requires UniqueIds(st.accounts)
    requires forall k :: 0 <= k < |st.accounts| ==> st.accounts[k].id != freshId
    ensures UniqueIds(Submit(st, d, freshId, now, storageOk).state.accounts)
  {
    var a := Submit(st, d, freshId, now, storageOk).state.accounts;
    SubmitSteps(st, d, freshId, now, storageOk);
    if MissingRequired(d) || (IsDuplicate(st.accounts, Trim(d.accountNumber), st.editingId) && !IsEditing(st.editingId)) {
      assert a == st.accounts;
    } else if IsEditing(st.editingId) {
      var id := st.editingId.value;
      var i := FindIndex(st.accounts, id);
      if i != -1 {
        var acc := MakeAccount(id, d, now);
        assert a == st.accounts[i := acc];
        SameIdsUnique(a, st.accounts);
      } else {
        assert a == st.accounts;
      }
    } else {
      var acc := MakeAccount(freshId, d, now);
      assert a == st.accounts + [acc];
      AppendKeepsIdsUnique(st.accounts, acc);
    }
  }

  /** Lists with the same ids, position by position, are alike in having unique ids. */
  lemma SameIdsUnique(a: seq<Account>, b: seq<Account>)
    requires |a| == |b| && UniqueIds(b)
    requires forall k :: 0 <= k < |a| ==> a[k].id == b[k].id
    ensures UniqueIds(a)
  {
  }

  lemma AppendKeepsIdsUnique(accounts: seq<Account>, acc: Account)
    requires UniqueIds(accounts)
    requires forall k :: 0 <= k < |accounts| ==> accounts[k].id != acc.id
    ensures UniqueIds(accounts + [acc])
  {
  }

  /**
   * As written, an edit can give a record the number another record already
   * has: with the marker set the duplicate check never runs, although
   * `isDuplicateAccount` itself excludes the record being edited.
   */
  lemma EditCanDuplicateNumber(st: State, d: Draft, freshId: string, now: string, storageOk: bool, i: int, j: int)
    requires !MissingRequired(d) && IsEditing(st.editingId)
    requires 0 <= i < |st.accounts| && st.accounts[i].id == st.editingId.value
    requires forall k :: 0 <= k < i ==> st.accounts[k].id != st.editingId.value
    requires 0 <= j < |st.accounts| && j != i && st.accounts[j].accountNumber == Trim(d.accountNumber)
    ensures Submit(st, d, freshId, now, storageOk).outcome in {Saved, SaveFailed}
    ensures !UniqueNumbers(Submit(st, d, freshId, now, storageOk).state.accounts)
  {
    SubmitReplaces(st, d, freshId, now, storageOk, i);
    var a := Submit(st, d, freshId, now, storageOk).state.accounts;
    assert a[i].accountNumber == a[j].accountNumber;
    if i < j {
      assert !(a[i].accountNumber != a[j].accountNumber);
    } else {
      assert !(a[j].accountNumber != a[i].accountNumber);
    }
  }

  /**
   * The submit as the self-exclusion in `isDuplicateAccount` evidently
   * intends: the duplicate check runs for edits too, skipping only the
   * record being edited.
   */
  function SubmitChecked(st: State, d: Draft, freshId: string, now: string, storageOk: bool): (r: Step)
    ensures r.state == st <==> r.outcome == MissingRequiredField || r.outcome == DuplicateAccountNumber
    ensures r.outcome == DuplicateAccountNumber <==>
      && !MissingRequired(d)
      && exists k :: 0 <= k < |st.accounts| && st.accounts[k].accountNumber == Trim(d.accountNumber)
           && (st.editingId.None? || st.accounts[k].id != st.editingId.value)
    ensures r.outcome == DuplicateAccountNumber ==> !UniqueNumbers(st.accounts + [MakeAccount(freshId, d, now)])
  {
    if MissingRequired(d) then Step(st, MissingRequiredField)
    else if IsDuplicate(st.accounts, Trim(d.accountNumber), st.editingId) then
      DuplicateBreaksUnique(st.accounts, MakeAccount(freshId, d, now));
      Step(st, DuplicateAccountNumber)
    else Commit(st, d, freshId, now, storageOk)
  }

  /** The intended submit differs from the written one only while the marker is set. */
  lemma SubmitCheckedAgrees(st: State, d: Draft, freshId: string, now: string, storageOk: bool)
    requires !IsEditing(st.editingId)
    ensures SubmitChecked(st, d, freshId, now, storageOk) == Submit(st, d, freshId, now, storageOk)
  {
  }

  /**
   * The intended submit keeps account numbers unique, for new records and
   * for edits alike, on a list whose ids are unique and non-empty (ids made
   * from the clock never are empty).
   */
  lemma SubmitCheckedKeepsNumbersUnique(st: State, d: Draft, freshId: string, now: string, storageOk: bool)
    requires UniqueNumbers(st.accounts) && UniqueIds(st.accounts)
    requires forall k :: 0 <= k < |st.accounts| ==> st.accounts[k].id != ""
    ensures UniqueNumbers(SubmitChecked(st, d, freshId, now, storageOk).state.accounts)
  {
    var number := Trim(d.accountNumber);
    if !MissingRequired(d) && !IsDuplicate(st.accounts, number, st.editingId) {
      if IsEditing(st.editingId) {
        var id := st.editingId.value;
        var i := FindIndex(st.accounts, id);
        if i != -1 {
          forall k | 0 <= k < |st.accounts| && k != i ensures st.accounts[k].accountNumber != number {
            assert st.accounts[k].id != id;
          }
          ReplaceKeepsNumbersUnique(st.accounts, i, MakeAccount(id, d, now));
        }
      } else {
        forall k | 0 <= k < |st.accounts| ensures st.accounts[k].accountNumber != number {
          assert st.editingId.None? || st.accounts[k].id != st.editingId.value;
        }
        AppendKeepsNumbersUnique(st.accounts, MakeAccount(freshId, d, now));
      }
    }
  }

  lemma ReplaceKeepsNumbersUnique(accounts: seq<Account>, i: int, acc: Account)
    requires UniqueNumbers(accounts) && 0 <= i < |accounts|
    requires forall k :: 0 <= k < |accounts| && k != i ==> accounts[k].accountNumber != acc.accountNumber
    ensures UniqueNumbers(accounts[i := acc])
  {
  }

  lemma AppendKeepsNumbersUnique(accounts: seq<Account>, acc: Account)
    requires UniqueNumbers(accounts)
    requires forall k :: 0 <= k < |accounts| ==> accounts[k].accountNumber != acc.accountNumber
    ensures UniqueNumbers(accounts + [acc])
  {
  }

  /** A record whose number some record already has breaks uniqueness once added. */
  lemma DuplicateBreaksUnique(accounts: seq<Account>, acc: Account)
    requires exists k :: 0 <= k < |accounts| && accounts[k].accountNumber == acc.accountNumber
    ensures !UniqueNumbers(accounts + [acc])
  {
    var k :| 0 <= k < |accounts| && accounts[k].accountNumber == acc.accountNumber;
    var a := accounts + [acc];
    assert a[k].accountNumber == a[|accounts|].accountNumber;
  }
}
