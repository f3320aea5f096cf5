/**
 * The display-name lookups (`getAccountBankName`, `getAccountTypeName`,
 * `getStatusName`) and the currency symbol chosen by `formatCurrency`.
 */
module Labels {

  const BankNames: map<string, string> := map[
    "bcp" := "BCP",
    "itb" := "InterBank",
    "falabella" := "Banco Falabella",
    "cmacica" := "CMAC Ica",
    "cmacaqp" := "CMAC Arequipa",
    "coopacesperanza" := "COOPAC La Esperanza"
  ]

  const AccountTypeNames: map<string, string> := map[
    "ahorro" := "Ahorro",
    "plazo_fijo" := "Plazo Fijo",
    "inversion" := "Inversión",
    "credito" := "Tarjeta Crédito"
  ]

  const StatusNames: map<string, string> := map[
    "active" := "Activa",
    "inactive" := "Inactiva",
    "blocked" := "Bloqueada",
    "canceled" := "Cancelada"
  ]

  /** Every label is non-empty and differs from its own code. */
  ghost predicate ProperTable(table: map<string, string>) {
    forall code :: code in table ==> table[code] != "" && table[code] != code
  }

  /**
   * `table[code] || code`: the label of a known code, the code itself
   * otherwise (a label is never falsy, so the fallback fires only on
   * unknown codes).
   */
  function Lookup(table: map<string, string>, code: string): (r: string)
    requires ProperTable(table)
    ensures r == code <==> code !in table
    ensures code in table ==> r == table[code]
  {
    if code in table && table[code] != "" then table[code] else code
  }

  lemma TablesProper()
    ensures ProperTable(BankNames) && ProperTable(AccountTypeNames) && ProperTable(StatusNames)
  {
  }

  /** `getAccountBankName`. */
  function BankName(code: string): (r: string)
    ensures r == code <==> code !in BankNames
    ensures code in BankNames ==> r == BankNames[code]
  {
    TablesProper();
    Lookup(BankNames, code)
  }

  /** `getAccountTypeName`. */
  function AccountTypeName(code: string): (r: string)
    ensures r == code <==> code !in AccountTypeNames
    ensures code in AccountTypeNames ==> r == AccountTypeNames[code]
  {
    TablesProper();
    Lookup(AccountTypeNames, code)
  }

  /** `getStatusName`. */
  function StatusName(code: string): (r: string)
    ensures r == code <==> code !in StatusNames
    ensures code in StatusNames ==> r == StatusNames[code]
  {
    TablesProper();
    Lookup(StatusNames, code)
  }

  /** The symbol `formatCurrency` puts in front: `$` for USD, `€` for EUR, `S/` for anything else. */
  function CurrencySymbol(currency: string): (r: string)
    ensures r == "$" <==> currency == "USD"
    ensures r == "€" <==> currency == "EUR"
    ensures r == "S/" <==> currency != "USD" && currency != "EUR"
  {
    if currency == "USD" then "$" else if currency == "EUR" then "€" else "S/"
  }

  /**
   * `formatCurrency` once the amount has been formatted: `$` for USD, `€` for
   * EUR and `S/` for every other code, then the formatted amount.
   */
  function FormatCurrency(formatted: string, currency: string): (r: string)
    ensures currency == "USD" ==> r == "$" + formatted
    ensures currency == "EUR" ==> r == "€" + formatted
    ensures currency != "USD" && currency != "EUR" ==> r == "S/" + formatted
  {
    CurrencySymbol(currency) + formatted
  }

  /**
   * The same formatted amount shows the same text for two currencies exactly
   * when both are USD, both are EUR, or neither is (PEN and every unknown
   * code share `S/`).
   */
  lemma FormatCurrencyDistinguishes(formatted: string, c1: string, c2: string)
    ensures FormatCurrency(formatted, c1) == FormatCurrency(formatted, c2) <==>
      (c1 == "USD") == (c2 == "USD") && (c1 == "EUR") == (c2 == "EUR")
  {
    var s1, s2 := CurrencySymbol(c1), CurrencySymbol(c2);
    var r1, r2 := s1 + formatted, s2 + formatted;
    if s1 != s2 {
      if |s1| == |s2| {
        assert r1[0] == s1[0] && r2[0] == s2[0];
      } else {
        assert |r1| != |r2|;
      }
    }
  }
}
