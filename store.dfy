/**
 * The page's account store: the `accounts` list and the `editingAccountId`
 * marker the event handlers update in place, and a ghost copy of what the
 * storage slot holds.
 */
module Store {
  import opened Wrappers
  import opened Text
  import opened Accounts
  import opened Submission

  class AccountStore {
    var accounts: seq<Account>
    var editingId: Option<string>
    /** The list last written to (or read from) the storage slot; None when it holds nothing usable. */
    ghost var persisted: Option<seq<Account>>

    /**
     * Page load: the stored list when the slot holds one, an empty list when
     * it is missing, empty or malformed (`stored` is None); no edit under way.
     */
    constructor (stored: Option<seq<Account>>)
      ensures accounts == (if stored.Some? then stored.value else [])
      ensures editingId == None && persisted == stored
    {
      accounts := if stored.Some? then stored.value else [];
      editingId := None;
      persisted := stored;
    }

    /**
     * `handleFormSubmit`. The list and the marker end as `Submit` says; the
     * storage slot receives the new list only when the write succeeds, and
     * a failed write leaves the in-memory change in place.
     */
    method HandleFormSubmit(d: Draft, freshId: string, now: string, storageOk: bool) returns (outcome: Outcome)
      modifies this
      ensures var r := Submit(State(old(accounts), old(editingId)), d, freshId, now, storageOk);
        accounts == r.state.accounts && editingId == r.state.editingId && outcome == r.outcome
      ensures persisted == if outcome == Saved then Some(accounts) else old(persisted)
    {
      SubmitSteps(State(accounts, editingId), d, freshId, now, storageOk);
      if MissingRequired(d) {
        return MissingRequiredField;
      }
      var number := Trim(d.accountNumber);
      if IsDuplicate(accounts, number, editingId) && !IsEditing(editingId) {
        return DuplicateAccountNumber;
      }
      outcome := Save(d, freshId, now, storageOk);
    }

    /**
     * The part of `handleFormSubmit` once the checks passed: apply the draft,
     * then write the list; a successful write also clears the form and closes
     * the edit dialog.
     */
    method Save(d: Draft, freshId: string, now: string, storageOk: bool) returns (outcome: Outcome)
      modifies this
      ensures accounts == Committed(State(old(accounts), old(editingId)), d, freshId, now)
      ensures editingId == if IsEditing(old(editingId)) || storageOk then None else old(editingId)
      ensures outcome == if storageOk then Saved else SaveFailed
      ensures persisted == if storageOk then Some(accounts) else old(persisted)
    {
      ApplyDraft(d, freshId, now);
      if !storageOk {
        return SaveFailed;
      }
      persisted := Some(accounts);
      ClearForm();
      CloseEditModal();
      outcome := Saved;
    }

    /**
     * The part of `handleFormSubmit` after the checks and before the storage
     * write: build the record, then replace the edited one in place or append.
     */
    method ApplyDraft(d: Draft, freshId: string, now: string)
      modifies this`accounts, this`editingId
      ensures accounts == Committed(State(old(accounts), old(editingId)), d, freshId, now)
      ensures editingId == if IsEditing(old(editingId)) then None else old(editingId)
    {
      var id := if IsEditing(editingId) then editingId.value else freshId;
      var account := MakeAccount(id, d, now);
      if IsEditing(editingId) {
        var index := FindIndex(accounts, editingId.value);
        if index != -1 {
          accounts := accounts[index := account];
        }
        editingId := None;
      } else {
        accounts := accounts + [account];
      }
    }

    /** `clearForm`, as far as the store goes: leaves edit mode. */
    method ClearForm()
      modifies this`editingId
      ensures editingId == None
    {
      editingId := None;
    }

    /** `closeEditModal`, as far as the store goes: leaves edit mode. */
    method CloseEditModal()
      modifies this`editingId
      ensures editingId == None
    {
      editingId := None;
    }

    /** `editAccount`: enters edit mode for `id` only when some record has it. */
    method EditAccount(id: string)
      modifies this`editingId
      ensures editingId == if exists k :: 0 <= k < |accounts| && accounts[k].id == id then Some(id) else old(editingId)
    {
      var index := FindIndex(accounts, id);
      if index != -1 {
        editingId := Some(id);
        assert accounts[index].id == id;
      }
    }

    /**
     * `deleteAccount`: once confirmed, drops every record with `id`; the
     * slot receives the new list when the write succeeds. The marker is left
     * alone.
     */
    method DeleteAccount(id: string, confirmed: bool, storageOk: bool)
      modifies this`accounts, this`persisted
      ensures accounts == if confirmed then RemoveId(old(accounts), id) else old(accounts)
      ensures persisted == if confirmed && storageOk then Some(accounts) else old(persisted)
    {
      if confirmed {
        accounts := RemoveId(accounts, id);
        if storageOk {
          persisted := Some(accounts);
        }
      }
    }
  }

  /** A session: adding a record to an empty store stores it under the new id and writes it. */
  method AddToEmpty(d: Draft, now: string)
    requires !MissingRequired(d)
  {
    var store := new AccountStore(None);
    SubmitAppends(State([], None), d, "1", now, true);
    var o := store.HandleFormSubmit(d, "1", now, true);
    assert o == Saved && |store.accounts| == 1 && store.accounts[0].id == "1";
    assert store.persisted == Some(store.accounts) && store.editingId == None;
  }

  /**
   * A session: open a stored record for editing and save the edit. The record
   * keeps its id and takes the edited number, and edit mode ends.
   */
  method EditStored(acc: Account, e: Draft, now: string)
    requires acc.id != "" && !MissingRequired(e)
  {
    var store := new AccountStore(Some([acc]));
    store.EditAccount(acc.id);
    assert store.accounts[0].id == acc.id;
    assert store.editingId == Some(acc.id);
    SubmitReplaces(State([acc], Some(acc.id)), e, "2", now, true, 0);
    var o := store.HandleFormSubmit(e, "2", now, true);
    assert o == Saved && |store.accounts| == 1 && store.accounts[0].id == acc.id;
    assert store.accounts[0].accountNumber == Trim(e.accountNumber);
    assert store.editingId == None;
  }

  /** A session: deleting the same record twice leaves what the first delete left. */
  method DeleteTwice(stored: seq<Account>, id: string)
  {
    var store := new AccountStore(Some(stored));
    store.DeleteAccount(id, true, true);
    var once := store.accounts;
    store.DeleteAccount(id, true, true);
    RemoveIdIdempotent(stored, id);
    assert store.accounts == once;
    assert store.persisted == Some(once);
  }
}
