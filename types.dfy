/**
 * The record shape of the dashboard (types.ts): a parsed CSV row maps each header name to
 * either text (`Sector`, `Month`, `Date`) or a number (every other column).
 */
module Types {
  import opened Wrappers

  datatype Value = Text(s: string) | Num(x: real)

  /** One CSV row: header name to cell value. Columns that the header lacks are absent. */
  type Record = map<string, Value>

  /** The three sectors of `SectorType`. */
  const RURAL: string := "Rural"
  const URBAN: string := "Urban"
  const COMBINED: string := "Rural+Urban"

  const SECTOR: string := "Sector"
  const MONTH: string := "Month"
  const DATE: string := "Date"
  const YEAR: string := "Year"
  const MONTH_NUM: string := "MonthNum"
  const GENERAL_INDEX: string := "General index"

  /** A numeric column read with a default of 0 when it is absent (`d[key] || 0`). */
  function NumOf(r: Record, key: string): real
  {
    if key in r && r[key].Num? then r[key].x else 0.0
  }

  /** A text column, or `None` when the record has no text under that name. */
  function TextOf(r: Record, key: string): Option<string>
  {
    if key in r && r[key].Text? then Some(r[key].s) else None
  }

  function YearOf(r: Record): real { NumOf(r, YEAR) }
  function MonthNumOf(r: Record): real { NumOf(r, MONTH_NUM) }
  function IndexOf(r: Record): real { NumOf(r, GENERAL_INDEX) }

  /** The `Date` text of a record; the empty string stands for a missing `Date`. */
  function DateOf(r: Record): string
  {
    match TextOf(r, DATE)
    case Some(d) => d
    case None => ""
  }

  /** `d.Sector === sector`. */
  predicate InSector(r: Record, sector: string)
  {
    TextOf(r, SECTOR) == Some(sector)
  }
}
