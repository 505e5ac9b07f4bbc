/** An encoded page as the exporters and the row reader see it. */
module ArrayPage {
  import opened Wrappers
  import opened Validity

  /** The part of an encoded array that these exporters read. */
  datatype Page = Page(rowCount: u64, validity: Option<Bitmap>, data: seq<byte>)

  function IsNullRow(page: Page, row: nat): Result<bool> {
    if row >= page.rowCount then Err(OffsetRange)
    else match page.validity
      case Some(bitmap) => IsNull(bitmap, row)
      case None => Ok(false)
  }

  function HasNulls(page: Page): Result<bool> {
    match page.validity
    case None => Ok(false)
    case Some(bitmap) =>
      var count :- NullCountOf(bitmap);
      Ok(count > 0)
  }

  method ArrayHasNulls(page: Page) returns (r: Result<bool>)
    ensures r == HasNulls(page)
  {
    if page.validity.None? {
      return Ok(false);
    }
    var count := NullCount(page.validity.value);
    if count.Err? {
      return Err(count.error);
    }
    return Ok(count.value > 0);
  }

  function NullFlag(page: Page, hasNulls: bool, row: nat): Result<bool> {
    if hasNulls then IsNullRow(page, row) else Ok(false)
  }
}
