/**
 * Account records and the list operations of the store: the `findIndex`
 * lookup, the `filter` behind delete and search, and the `reduce` behind the
 * summary.
 */
module Accounts {
  import opened Text

  /**
   * A JavaScript number as a stored record holds it: a numeric value, or a
   * value for which `isNaN` holds (NaN itself, or text read back from
   * storage that is not a number). Values are integers here: one unit may be
   * read as one cent.
   */
  datatype Number = Num(value: int) | NaN

  /** The form's values as `handleFormSubmit` reads them, before trimming. */
  datatype Draft = Draft(
    bankName: string,
    accountType: string,
    accountNumber: string,
    accountHolder: string,
    openingDate: string,
    balance: int,
    currency: string,
    status: string,
    monthlyFee: int,
    fixedAmount: int,
    interestRate: int,
    startDate: string,
    maturityDate: string,
    initialInvestment: int,
    currentValue: int,
    riskLevel: string)

  /** One stored account record. */
  datatype Account = Account(
    id: string,
    bankName: string,
    accountType: string,
    accountNumber: string,
    accountHolder: string,
    openingDate: string,
    balance: Number,
    currency: string,
    status: string,
    monthlyFee: Number,
    fixedAmount: Number,
    interestRate: Number,
    startDate: string,
    maturityDate: string,
    initialInvestment: Number,
    currentValue: Number,
    riskLevel: string,
    lastUpdated: string)

  /** `accounts.findIndex(acc => acc.id === id)`: the first position holding `id`, or -1. */
  function FindIndex(accounts: seq<Account>, id: string): (r: int)
    ensures -1 <= r < |accounts|
    ensures r == -1 <==> forall k :: 0 <= k < |accounts| ==> accounts[k].id != id
    ensures r != -1 ==> accounts[r].id == id && forall k :: 0 <= k < r ==> accounts[k].id != id
  {
    if accounts == [] then -1
    else if accounts[0].id == id then 0
    else
      var k := FindIndex(accounts[1..], id);
      if k == -1 then -1 else k + 1
  }

  /** `Array.prototype.filter`: the elements that satisfy `p`, in their order. */
  function Filter<T>(s: seq<T>, p: T -> bool): seq<T> {
    if s == [] then [] else (if p(s[0]) then [s[0]] else []) + Filter(s[1..], p)
  }

  /** `Array.prototype.some`: some element satisfies `p`. */
  function Any<T>(s: seq<T>, p: T -> bool): (b: bool)
    ensures b <==> exists k :: 0 <= k < |s| && p(s[k])
  {
    if s == [] then false
    else if p(s[0]) then true
    else
      assert forall k :: 1 <= k < |s| ==> s[1..][k - 1] == s[k];
      Any(s[1..], p)
  }

  /** `r` can be obtained from `s` by deleting elements: same order, nothing new. */
  ghost predicate SubsequenceOf<T>(r: seq<T>, s: seq<T>)
    decreases |r| + |s|
  {
    r == [] || (s != [] && ((r[0] == s[0] && SubsequenceOf(r[1..], s[1..])) || SubsequenceOf(r, s[1..])))
  }

  lemma {:induction false} FilterMembership<T>(s: seq<T>, p: T -> bool, x: T)
    ensures x in Filter(s, p) <==> x in s && p(x)
  {
    if s != [] {
      FilterMembership(s[1..], p, x);
      assert s == [s[0]] + s[1..];
    }
  }

  lemma {:induction false} FilterSubsequence<T>(s: seq<T>, p: T -> bool)
    ensures SubsequenceOf(Filter(s, p), s)
  {
    if s != [] {
      FilterSubsequence(s[1..], p);
      var rest := Filter(s[1..], p);
      if p(s[0]) {
        assert Filter(s, p) == [s[0]] + rest;
        assert Filter(s, p)[1..] == rest;
      } else {
        assert Filter(s, p) == rest;
      }
    }
  }

  /** What `filter` keeps comes from the list and passes the test; every element that passes is kept. */
  lemma FilterSound<T>(s: seq<T>, p: T -> bool)
    ensures forall k :: 0 <= k < |Filter(s, p)| ==> Filter(s, p)[k] in s && p(Filter(s, p)[k])
    ensures forall k :: 0 <= k < |s| && p(s[k]) ==> s[k] in Filter(s, p)
  {
    var r := Filter(s, p);
    forall k | 0 <= k < |r| ensures r[k] in s && p(r[k]) {
      FilterMembership(s, p, r[k]);
    }
    forall k | 0 <= k < |s| && p(s[k]) ensures s[k] in r {
      FilterMembership(s, p, s[k]);
    }
  }

  /** Filtering keeps a sequence whole when every element passes. */
  lemma {:induction false} FilterAll<T>(s: seq<T>, p: T -> bool)
    requires forall k :: 0 <= k < |s| ==> p(s[k])
    ensures Filter(s, p) == s
  {
    if s != [] {
      FilterAll(s[1..], p);
      assert [s[0]] + s[1..] == s;
    }
  }

  /** Filtering twice with the same test is filtering once. */
  lemma FilterIdempotent<T>(s: seq<T>, p: T -> bool)
    ensures Filter(Filter(s, p), p) == Filter(s, p)
  {
    var r := Filter(s, p);
    forall k | 0 <= k < |r| ensures p(r[k]) {
      FilterMembership(s, p, r[k]);
    }
    FilterAll(r, p);
  }

  /** Filtering works element by element, so it distributes over concatenation. */
  lemma {:induction false} FilterAppend<T>(a: seq<T>, b: seq<T>, p: T -> bool)
    ensures Filter(a + b, p) == Filter(a, p) + Filter(b, p)
  {
    if a == [] {
      assert a + b == b;
    } else {
      var head := if p(a[0]) then [a[0]] else [];
      FilterAppend(a[1..], b, p);
      assert (a + b)[0] == a[0] && (a + b)[1..] == a[1..] + b;
      assert Filter(a + b, p) == head + Filter(a[1..] + b, p);
      assert Filter(a, p) == head + Filter(a[1..], p);
    }
  }

  /** The test `acc => acc.id !== id` of `deleteAccount`. */
  function OtherId(id: string): Account -> bool {
    (acc: Account) => acc.id != id
  }

  /**
   * `accounts.filter(acc => acc.id !== id)`: no record with the id remains,
   * every record left comes from the list, and every other record is kept.
   */
  function RemoveId(accounts: seq<Account>, id: string): (r: seq<Account>)
    ensures forall k :: 0 <= k < |r| ==> r[k].id != id && r[k] in accounts
    ensures forall k :: 0 <= k < |accounts| && accounts[k].id != id ==> accounts[k] in r
  {
    FilterSound(accounts, OtherId(id));
    Filter(accounts, OtherId(id))
  }

  /** Deleting keeps the remaining records in their original order. */
  lemma RemoveIdOrder(accounts: seq<Account>, id: string)
    ensures SubsequenceOf(RemoveId(accounts, id), accounts)
  {
    FilterSubsequence(accounts, OtherId(id));
  }

  /** Deleting the same id twice leaves what deleting it once left. */
  lemma RemoveIdIdempotent(accounts: seq<Account>, id: string)
    ensures RemoveId(RemoveId(accounts, id), id) == RemoveId(accounts, id)
  {
    FilterIdempotent(accounts, OtherId(id));
  }

  /** Deleting an id no record has leaves the list as it was. */
  lemma RemoveIdAbsent(accounts: seq<Account>, id: string)
    requires forall k :: 0 <= k < |accounts| ==> accounts[k].id != id
    ensures RemoveId(accounts, id) == accounts
  {
    FilterAll(accounts, OtherId(id));
  }

  /** `searchAccounts`' test: the lower-cased term occurs in one of the three lower-cased fields. */
  predicate Matches(acc: Account, term: string) {
    || Contains(Lower(acc.bankName), term)
    || Contains(Lower(acc.accountNumber), term)
    || Contains(Lower(acc.accountHolder), term)
  }

  function MatchesTerm(term: string): Account -> bool {
    (acc: Account) => Matches(acc, term)
  }

  /**
   * `searchAccounts`: the records it hands to the table renderer. An empty
   * term shows the whole list; otherwise every record shown is from the list
   * and matches the lower-cased term.
   */
  function Search(accounts: seq<Account>, term: string): (r: seq<Account>)
    ensures term == "" ==> r == accounts
    ensures forall k :: 0 <= k < |r| ==> r[k] in accounts && (term == "" || Matches(r[k], Lower(term)))
  {
    var t := Lower(term);
    if t == "" then accounts
    else
      FilterSound(accounts, MatchesTerm(t));
      Filter(accounts, MatchesTerm(t))
  }

  /**
   * A record is shown exactly when it is in the list and, for a non-empty
   * term, the lower-cased term occurs in its lower-cased bank code, number
   * or holder.
   */
  lemma SearchMembership(accounts: seq<Account>, term: string, acc: Account)
    ensures acc in Search(accounts, term) <==> acc in accounts && (term == "" || Matches(acc, Lower(term)))
  {
    if term != "" {
      FilterMembership(accounts, MatchesTerm(Lower(term)), acc);
    }
  }

  /** The records shown keep the list's order. */
  lemma SearchOrder(accounts: seq<Account>, term: string)
    ensures SubsequenceOf(Search(accounts, term), accounts)
  {
    if Lower(term) != "" {
      FilterSubsequence(accounts, MatchesTerm(Lower(term)));
    } else {
      SubsequenceOfSelf(accounts);
    }
  }

  lemma {:induction false} SubsequenceOfSelf<T>(s: seq<T>)
    ensures SubsequenceOf(s, s)
  {
    if s != [] {
      SubsequenceOfSelf(s[1..]);
    }
  }

  /** Searching for a term and for its lower-cased form shows the same records. */
  lemma SearchIgnoresCase(accounts: seq<Account>, term: string)
    ensures Search(accounts, Lower(term)) == Search(accounts, term)
  {
    LowerIdempotent(term);
  }

  /** Terms that differ only in letter case show the same records: "BCP" finds what "bcp" finds. */
  lemma SearchCaseExample(accounts: seq<Account>)
    ensures Search(accounts, "BCP") == Search(accounts, "bcp")
  {
    assert Lower("BCP") == "bcp";
  }

  /** `isNaN(balance) ? 0 : balance`. */
  function BalanceOrZero(n: Number): int {
    if n.Num? then n.value else 0
  }

  /** The `reduce` of `updateSummary`: balances added left to right, a NaN counting as 0. */
  function Total(accounts: seq<Account>): int {
    if accounts == [] then 0
    else Total(accounts[..|accounts| - 1]) + BalanceOrZero(accounts[|accounts| - 1].balance)
  }

  /** The two figures `updateSummary` shows. */
  datatype Summary = Summary(count: nat, total: int)

  /** `updateSummary`: the record count, and the sum of the numeric balances only. */
  function UpdateSummary(accounts: seq<Account>): (s: Summary)
    ensures s.count == |accounts|
    ensures s.total == Total(Filter(accounts, HasNumber))
  {
    TotalIgnoresNaN(accounts);
    Summary(|accounts|, Total(accounts))
  }

  /** With no negative balance the total is not negative. */
  lemma {:induction false} TotalNonNegative(accounts: seq<Account>)
    requires forall k :: 0 <= k < |accounts| ==> BalanceOrZero(accounts[k].balance) >= 0
    ensures Total(accounts) >= 0
  {
    if accounts != [] {
      TotalNonNegative(accounts[..|accounts| - 1]);
    }
  }

  /** With no numeric balance the total is 0. */
  lemma {:induction false} TotalAllNaN(accounts: seq<Account>)
    requires forall k :: 0 <= k < |accounts| ==> accounts[k].balance.NaN?
    ensures Total(accounts) == 0
  {
    if accounts != [] {
      TotalAllNaN(accounts[..|accounts| - 1]);
    }
  }

  /** The total of a concatenation is the sum of the totals. */
  lemma {:induction false} TotalAppend(a: seq<Account>, b: seq<Account>)
    ensures Total(a + b) == Total(a) + Total(b)
  {
    if b == [] {
      assert a + b == a;
    } else {
      var b' := b[..|b| - 1];
      TotalAppend(a, b');
      assert (a + b)[..|a + b| - 1] == a + b';
    }
  }

  function HasNumber(acc: Account): bool {
    acc.balance.Num?
  }

  /** Appending one record to a list adds its balance to the total of the records passing `p`, if it passes. */
  lemma TotalFilterLast(init: seq<Account>, last: Account, p: Account -> bool)
    ensures Total(Filter(init + [last], p)) == Total(Filter(init, p)) + (if p(last) then BalanceOrZero(last.balance) else 0)
  {
    FilterAppend(init, [last], p);
    var single := Filter([last], p);
    assert single == (if p(last) then [last] else []) + Filter([], p);
    TotalAppend(Filter(init, p), single);
    if p(last) {
      assert single[..0] == [];
    }
  }

  /** Records with a NaN balance add nothing: the total is the sum over the numeric balances only. */
  lemma {:induction false} TotalIgnoresNaN(accounts: seq<Account>)
    ensures Total(accounts) == Total(Filter(accounts, HasNumber))
  {
    if accounts != [] {
      var init, last := accounts[..|accounts| - 1], accounts[|accounts| - 1];
      TotalIgnoresNaN(init);
      assert accounts == init + [last];
      TotalFilterLast(init, last, HasNumber);
    }
  }

  /**
   * The total splits along any test: what a delete removes and what it
   * keeps add up to the total before it.
   */
  lemma {:induction false} TotalSplit(accounts: seq<Account>, p: Account -> bool, q: Account -> bool)
    requires forall acc :: q(acc) == !p(acc)
    ensures Total(accounts) == Total(Filter(accounts, p)) + Total(Filter(accounts, q))
  {
    if accounts != [] {
      var init, last := accounts[..|accounts| - 1], accounts[|accounts| - 1];
      TotalSplit(init, p, q);
      assert accounts == init + [last];
      TotalFilterLast(init, last, p);
      TotalFilterLast(init, last, q);
    }
  }

  /** The test `acc => acc.id === id`: the records a delete of `id` removes. */
  function SameId(id: string): Account -> bool {
    (acc: Account) => acc.id == id
  }

  /** After a delete, the total drops by exactly the balances of the removed records. */
  lemma RemoveIdTotal(accounts: seq<Account>, id: string)
    ensures Total(RemoveId(accounts, id)) == Total(accounts) - Total(Filter(accounts, SameId(id)))
  {
    TotalSplit(accounts, OtherId(id), SameId(id));
  }
}
