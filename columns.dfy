/** Column detection: which header names hold the industries, buzzwords and amount cells. */
module Columns {
  import opened Wrappers

  const Industries: string := "Industries"
  const CompanyIndustries: string := "(Company) Industries"
  const Buzzwords: string := "Buzzwords"
  const CompanyBuzzwords: string := "(Company) Buzzwords"
  const AmountGbp: string := "Amount raised (converted to GBP)"

  /** The resolved columns; `amount` is `None` when the table has no amount column. */
  datatype Columns = Columns(industries: string, buzzwords: string, amount: Option<string>)

  /** The one error of the resolver: a tag column is missing under both naming schemes. */
  datatype MissingColumns = MissingColumns

  /** `c` is the column a header yields when `preferred` wins over `fallback`. */
  predicate ChosenName(header: set<string>, c: string, preferred: string, fallback: string) {
    c in header && (c == preferred || (c == fallback && preferred !in header))
  }

  /** Picks `preferred` if the header has it, otherwise `fallback` if it has that. */
  function Pick(header: set<string>, preferred: string, fallback: string): (r: Option<string>)
    requires preferred != fallback
    ensures r.Some? <==> preferred in header || fallback in header
    ensures r.Some? ==> ChosenName(header, r.value, preferred, fallback)
  {
    if preferred in header then Some(preferred)
    else if fallback in header then Some(fallback)
    else None
  }

  /** The column resolver: each tag column is looked up on its own, so the two
      naming schemes may be mixed; it fails exactly when either tag column is
      missing under both names. */
  function Resolve(header: set<string>): (r: Result<Columns, MissingColumns>)
    ensures r.Failure? <==>
      (Industries !in header && CompanyIndustries !in header) ||
      (Buzzwords !in header && CompanyBuzzwords !in header)
    ensures r.Success? ==>
      && ChosenName(header, r.value.industries, Industries, CompanyIndustries)
      && ChosenName(header, r.value.buzzwords, Buzzwords, CompanyBuzzwords)
      && (r.value.amount.Some? <==> AmountGbp in header)
      && (r.value.amount.Some? ==> r.value.amount.value == AmountGbp)
  {
    var industries := Pick(header, Industries, CompanyIndustries);
    var buzzwords := Pick(header, Buzzwords, CompanyBuzzwords);
    var amount := if AmountGbp in header then Some(AmountGbp) else None;
    if industries.None? || buzzwords.None? then Failure(MissingColumns)
    else Success(Columns(industries.value, buzzwords.value, amount))
  }

  /** `ChosenName` pins the column down: nothing else satisfies it. */
  lemma ChosenNameUnique(header: set<string>, c: string, d: string, preferred: string, fallback: string)
    requires preferred != fallback
    requires ChosenName(header, c, preferred, fallback) && ChosenName(header, d, preferred, fallback)
    ensures c == d
  {
  }

  /** A header that mixes the schemes (unprefixed industries, prefixed buzzwords) is accepted. */
  lemma MixedSchemesAccepted(header: set<string>)
    requires Industries in header && CompanyBuzzwords in header && Buzzwords !in header
    ensures Resolve(header).Success?
    ensures Resolve(header).value.industries == Industries
    ensures Resolve(header).value.buzzwords == CompanyBuzzwords
  {
  }
}
