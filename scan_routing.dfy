/** How a line from the card reader is routed: `BK...` is a book tag, anything else a student card. */
module ScanRouting {
  import opened Text

  const BOOK_TAG := "BK"

  datatype Route = ToStudent(id: string) | ToBook(id: string) | Ignored

  function RouteLine(line: string): (r: Route)
    ensures r.ToStudent? <==> line != "" && !StartsWith(line, BOOK_TAG)
    ensures r.ToBook? <==> StartsWith(line, BOOK_TAG)
    ensures r.Ignored? <==> line == ""
    ensures !r.Ignored? ==> r.id == line
  {
    if line == "" then Ignored
    else if StartsWith(line, BOOK_TAG) then ToBook(line)
    else ToStudent(line)
  }
}
