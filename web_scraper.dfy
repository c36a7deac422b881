/** The stock-table extractor and the polling scraper object of webScraper.js: a regular-expression
    parser that turns the Egyptian Exchange's market page into one record per listed instrument,
    the fixed two-record fallback used when the page cannot be fetched or yields nothing, and the
    start/stop/interval state of the auto-update loop that hands each fetch to a callback. */
module WebScraper {
  import opened Wrappers
  import opened JsText
  import opened HtmlScan

  /** The market page the scraper requests. */
  const BaseUrl := "http://41.33.162.236/egs4"
  /** The polling period, in milliseconds, a new scraper starts with. */
  const DefaultUpdateInterval := 30000

  /** A row needs this many cells to become a record; further cells are ignored. */
  const FieldCount := 13
  /** The position of the instrument's short name among the cells. */
  const NameIndex := 11

  /** The keys of the objects the scraper produces, in the order the cells of a row fill them. */
  const FieldKeys: seq<string> := [
    "أقصى_سعر", "أدنى_سعر", "إغلاق", "إقفال_سابق", "التغير", "%التغيير", "أعلى",
    "الأدنى", "الطلب", "العرض", "أخر_سعر", "الإسم_المختصر", "حجم_التداول"]

  /** There is one key per cell a record takes, and the name cell fills the short-name key. */
  lemma FieldKeysMatchCells()
    ensures |FieldKeys| == FieldCount
    ensures FieldKeys[NameIndex] == "الإسم_المختصر"
  {
  }

  /** One row of the market table: `values[i]` is the value under `FieldKeys[i]`, the cleaned text
      of a cell (no number is parsed). The instrument's short name is `values[NameIndex]`. */
  datatype StockRecord = StockRecord(values: seq<string>)

  /** What every record the scraper hands on satisfies: a value for each key, a non-empty name
      and no value with white space at either end. */
  predicate WellFormed(r: StockRecord) {
    && |r.values| == FieldCount
    && r.values[NameIndex] != []
    && forall i :: 0 <= i < |r.values| ==> Trimmed(r.values[i])
  }

  // ---------------------------------------------------------------------------------------------
  // The extractor as a specification

  /** The cleaned texts of a sequence of raw cells. */
  function CleanAll(raw: seq<string>): seq<string> {
    seq(|raw|, i requires 0 <= i < |raw| => CleanCell(raw[i]))
  }

  lemma {:induction false} CleanAllCons(raw: seq<string>)
    requires raw != []
    ensures CleanAll(raw) == [CleanCell(raw[0])] + CleanAll(raw[1..])
  {
    assert CleanAll(raw)[1..] == CleanAll(raw[1..]);
  }

  /** The cleaned cells of one row, in order. */
  function RowCells(row: string): seq<string> {
    CleanAll(AllMatches(row, CellOpen, CellClose, 0))
  }

  /** The record a row (the text between `<tr …>` and `</tr>`) yields, if any. */
  function RowRecord(row: string): (r: Option<StockRecord>)
    ensures r.Some? ==> |r.value.values| == FieldCount && r.value.values[NameIndex] != []
    ensures |RowCells(row)| < FieldCount ==> r.None?
  {
    var cells := RowCells(row);
    if |cells| >= FieldCount && cells[NameIndex] != [] then Some(StockRecord(cells[..FieldCount])) else None
  }

  /** A row yields a record exactly when it has at least 13 cells and its name cell is
      non-empty; the record is made of its first 13 cells by position, and is well formed. */
  lemma {:induction false} RowRecordSpec(row: string)
    ensures var r := RowRecord(row); var cells := RowCells(row);
      && (r.Some? <==> |cells| >= FieldCount && cells[NameIndex] != [])
      && (r.Some? ==> r.value.values == cells[..FieldCount] && WellFormed(r.value))
  {
  }

  /** What each of a sequence of rows yields. */
  function RowOptions(rows: seq<string>): seq<Option<StockRecord>> {
    seq(|rows|, i requires 0 <= i < |rows| => RowRecord(rows[i]))
  }

  /** The records of a sequence of rows, in row order. */
  function RowRecords(rows: seq<string>): seq<StockRecord> {
    Present(RowOptions(rows))
  }

  /** The first row's record, if any, followed by the records of the rest. */
  lemma {:induction false} RowRecordsCons(rows: seq<string>)
    requires rows != []
    ensures RowRecords(rows) == RowRecord(rows[0]).ToSeq() + RowRecords(rows[1..])
  {
    assert RowOptions(rows)[1..] == RowOptions(rows[1..]);
  }

  /** What the extractor returns for a page: the records of every row after the first one found. */
  function ParsedStocks(html: string): (r: seq<StockRecord>)
    ensures r == [] || |r| < |AllMatches(html, RowOpen, RowClose, 0)|
  {
    match NextElement(html, RowOpen, RowClose, 0)
    case None => []
    case Some(header) => RowRecords(AllMatches(html, RowOpen, RowClose, header.end))
  }

  /** The positions, from `k` on, of the rows that yield a record. */
  function AcceptedFrom(rows: seq<string>, k: nat): seq<nat> {
    PresentFrom(RowOptions(rows), k)
  }

  /** The records of the rows after the first are the records of the accepting rows, one each,
      in row order. */
  lemma {:induction false} AcceptedRowsGiveRecords(rows: seq<string>)
    requires rows != []
    ensures var recs := RowRecords(rows[1..]); var ix := AcceptedFrom(rows, 1);
      && |recs| == |ix| <= |rows| - 1
      && (forall i :: 0 <= i < |ix| ==> 1 <= ix[i] < |rows| && RowRecord(rows[ix[i]]) == Some(recs[i]))
      && (forall i, j :: 0 <= i < j < |ix| ==> ix[i] < ix[j])
      && (forall j :: 1 <= j < |rows| && RowRecord(rows[j]).Some? ==> j in ix)
  {
    var opts := RowOptions(rows);
    PresentFollowsPositions(opts, 1);
    assert opts[1..] == RowOptions(rows[1..]);
  }

  /** The extractor's result is the records of every row found after the first. */
  lemma {:induction false} ParsedStocksSkipFirstRow(html: string)
    ensures var rows := AllMatches(html, RowOpen, RowClose, 0);
      ParsedStocks(html) == (if rows == [] then [] else RowRecords(rows[1..]))
  {
    var rows := AllMatches(html, RowOpen, RowClose, 0);
    match NextElement(html, RowOpen, RowClose, 0)
    case None =>
    case Some(header) =>
      assert rows[1..] == AllMatches(html, RowOpen, RowClose, header.end);
  }

  /** The extractor skips the first row it finds and keeps, in document order, one record for
      each later row that has at least 13 cells and a non-empty name, and nothing else; so it never
      returns more records than there are rows after the first. */
  lemma {:induction false} ParsedStocksAreAcceptedDataRows(html: string)
    ensures var rows := AllMatches(html, RowOpen, RowClose, 0);
      var recs := ParsedStocks(html); var ix := AcceptedFrom(rows, 1);
      && (rows == [] ==> recs == [])
      && (rows != [] ==> |recs| == |ix| <= |rows| - 1)
      && (forall i :: 0 <= i < |ix| ==> 1 <= ix[i] < |rows| && RowRecord(rows[ix[i]]) == Some(recs[i]))
      && (forall i, j :: 0 <= i < j < |ix| ==> ix[i] < ix[j])
      && (forall j :: 1 <= j < |rows| && RowRecord(rows[j]).Some? ==> j in ix)
  {
    var rows := AllMatches(html, RowOpen, RowClose, 0);
    ParsedStocksSkipFirstRow(html);
    if rows != [] {
      AcceptedRowsGiveRecords(rows);
    }
  }

  /** Rows that all yield a record give one record each. */
  lemma {:induction false} AllAcceptedKeepsCount(rows: seq<string>)
    requires forall j :: 0 <= j < |rows| ==> RowRecord(rows[j]).Some?
    ensures |RowRecords(rows)| == |rows|
  {
    if rows != [] {
      RowRecordsCons(rows);
      assert forall j :: 0 <= j < |rows[1..]| ==> rows[1..][j] == rows[j + 1];
      AllAcceptedKeepsCount(rows[1..]);
    }
  }

  /** A page whose rows after the first all have 13 cells and a name yields exactly one record
      per data row. */
  lemma {:induction false} ParsedStocksCountsDataRows(html: string)
    requires var rows := AllMatches(html, RowOpen, RowClose, 0);
      rows != [] && forall j :: 1 <= j < |rows| ==> RowRecord(rows[j]).Some?
    ensures |ParsedStocks(html)| == |AllMatches(html, RowOpen, RowClose, 0)| - 1
  {
    var rows := AllMatches(html, RowOpen, RowClose, 0);
    ParsedStocksSkipFirstRow(html);
    assert forall j :: 0 <= j < |rows[1..]| ==> rows[1..][j] == rows[j + 1];
    AllAcceptedKeepsCount(rows[1..]);
  }

  lemma {:induction false} RowRecordsWellFormed(rows: seq<string>)
    ensures forall r :: r in RowRecords(rows) ==> WellFormed(r)
  {
    var opts := RowOptions(rows);
    PresentValuesOccur(opts);
    forall r | r in RowRecords(rows) ensures WellFormed(r) {
      var i :| 0 <= i < |opts| && opts[i] == Some(r);
      RowRecordSpec(rows[i]);
    }
  }

  /** Every record the extractor returns has a non-empty name and trimmed values. */
  lemma {:induction false} ParsedStocksWellFormed(html: string)
    ensures forall r :: r in ParsedStocks(html) ==> WellFormed(r)
  {
    match NextElement(html, RowOpen, RowClose, 0)
    case None =>
    case Some(header) => RowRecordsWellFormed(AllMatches(html, RowOpen, RowClose, header.end));
  }

  /** A cell holding nothing but white space cleans to the empty string. */
  lemma {:induction false} BlankCellCleansToEmpty(raw: string)
    requires AllSpace(raw)
    ensures CleanCell(raw) == []
  {
    forall i | 0 <= i < |raw| ensures raw[i] != '>' && raw[i] != '&' {
      assert IsJsSpace(raw[i]);
    }
    StripTagsWithoutClose(raw);
    NoOccurrenceWithoutHead(raw, "&nbsp;");
    ReplaceAllWithoutPattern(raw, "&nbsp;", " ");
    NoOccurrenceWithoutHead(raw, "&amp;");
    ReplaceAllWithoutPattern(raw, "&amp;", "&");
    NoOccurrenceWithoutHead(raw, "&lt;");
    ReplaceAllWithoutPattern(raw, "&lt;", "<");
    NoOccurrenceWithoutHead(raw, "&gt;");
    ReplaceAllWithoutPattern(raw, "&gt;", ">");
    TrimEmptyIffAllSpace(raw);
  }

  /** So a row whose name cell is blank yields no record, whatever its other cells hold. */
  lemma {:induction false} BlankNameDropsRow(row: string)
    requires var raw := AllMatches(row, CellOpen, CellClose, 0); |raw| > NameIndex && AllSpace(raw[NameIndex])
    ensures RowRecord(row).None?
  {
    BlankCellCleansToEmpty(AllMatches(row, CellOpen, CellClose, 0)[NameIndex]);
  }

  lemma {:induction false} AppendAssociates<T>(a: seq<T>, b: seq<T>, c: seq<T>)
    ensures (a + b) + c == a + (b + c)
  {
  }

  // ---------------------------------------------------------------------------------------------
  // Fallback data and the fetch decision

  /** The first fallback record, for El Ezz Dekheila Steel. */
  const SteelMock := StockRecord(
    ["1251", "1187.5", "1250", "1250", "0", "0", "1251", "1250", "1250", "1460",
     "1250", "العز الدخيلة للصلب", "76"])

  /** The second fallback record, for Minapharm Pharmaceuticals. */
  const PharmaMock := StockRecord(
    ["300.42", "200.28", "0", "250.35", "1.65", "0.66", "252", "247", "250.2",
     "252.5", "252", "مينا فارم للأدوية", "908"])

  lemma SteelMockWellFormed()
    ensures WellFormed(SteelMock)
  {
    var v := SteelMock.values;
    assert forall i :: 0 <= i < |v| ==> Trimmed(v[i]);
  }

  lemma PharmaMockWellFormed()
    ensures WellFormed(PharmaMock)
  {
    var v := PharmaMock.values;
    assert forall i :: 0 <= i < |v| ==> Trimmed(v[i]);
  }

  /** The two fixed records returned when real data cannot be had. */
  function MockData(): (r: seq<StockRecord>)
    ensures |r| == 2 && WellFormed(r[0]) && WellFormed(r[1])
    ensures r[0].values[NameIndex] == "العز الدخيلة للصلب" && r[1].values[NameIndex] == "مينا فارم للأدوية"
  {
    SteelMockWellFormed();
    PharmaMockWellFormed();
    [SteelMock, PharmaMock]
  }

  /** The outcome of the HTTP request for the market page: the page text, or a rejection (a
      network error, the 10-second timeout, a non-2xx status, or no HTTP client at all). */
  datatype HttpResponse = Ok(body: string) | Failed

  /** What one fetch yields: the parsed records when there are any, the fallback otherwise. */
  function FetchResult(response: HttpResponse): (r: seq<StockRecord>)
    ensures |r| > 0
    ensures forall rec :: rec in r ==> WellFormed(rec)
  {
    match response
    case Ok(html) =>
      ParsedStocksWellFormed(html);
      var parsed := ParsedStocks(html);
      if |parsed| > 0 then parsed else MockData()
    case Failed => MockData()
  }

  // ---------------------------------------------------------------------------------------------
  // The scraper object

  /** A timer handle as `setInterval` returns it. */
  type TimerId = nat
  /** The callback a caller registers, by identity. */
  type CallbackId = nat

  /** One call of a registered callback, with the records it was given. */
  datatype Delivery = Delivery(callback: CallbackId, data: seq<StockRecord>)

  /** The calls `fetchAndNotify` makes for one fetch: one when a callback is registered. */
  function Notification(callback: Option<CallbackId>, response: HttpResponse): (r: seq<Delivery>)
    ensures |r| == (if callback.Some? then 1 else 0)
    ensures forall i :: 0 <= i < |r| ==> callback.Some? && r[i].callback == callback.value && |r[i].data| > 0
  {
    match callback
    case Some(c) => [Delivery(c, FetchResult(response))]
    case None => []
  }

  class EgyptianExchangeScraper {
    const baseUrl: string
    var updateInterval: int
    var isRunning: bool
    var intervalId: Option<TimerId>
    var dataCallback: Option<CallbackId>
    /** The repeating timers this scraper has armed and not yet cleared, with their periods. */
    var armedTimers: map<TimerId, int>
    /** Every call of a registered callback so far, oldest first. */
    var deliveries: seq<Delivery>

    /** Running exactly when a timer is armed; at most the one timer in `intervalId` is armed;
        no callback was ever handed an empty list. */
    ghost predicate Valid()
      reads this
    {
      && (isRunning <==> intervalId.Some?)
      && armedTimers.Keys == (if intervalId.Some? then {intervalId.value} else {})
      && forall d :: d in deliveries ==> |d.data| > 0
    }

    constructor ()
      ensures Valid()
      ensures baseUrl == BaseUrl && updateInterval == DefaultUpdateInterval
      ensures !isRunning && intervalId == None && dataCallback == None
      ensures armedTimers == map[] && deliveries == []
    {
      baseUrl := BaseUrl;
      updateInterval := DefaultUpdateInterval;
      isRunning := false;
      intervalId := None;
      dataCallback := None;
      armedTimers := map[];
      deliveries := [];
    }

    /** `fetchStockData`, given the outcome of its HTTP request: never empty; the parsed records
        when the page yields any, the two fallback records on an empty parse or any failure. */
    method FetchStockData(response: HttpResponse) returns (data: seq<StockRecord>)
      ensures |data| > 0
      ensures response.Ok? && ParsedStocks(response.body) != [] ==> data == ParsedStocks(response.body)
      ensures !(response.Ok? && ParsedStocks(response.body) != []) ==> data == MockData()
      ensures data == FetchResult(response)
    {
      match response
      case Failed =>
        data := MockData();
      case Ok(html) =>
        var stockData := ParseHTMLWithRegex(html);
        if |stockData| > 0 {
          data := stockData;
        } else {
          data := MockData();
        }
    }

    /** `parseHTMLWithRegex`: the loop over the row matches, skipping the first. */
    method ParseHTMLWithRegex(html: string) returns (stockData: seq<StockRecord>)
      ensures stockData == ParsedStocks(html)
    {
      stockData := [];
      var rowLastIndex := 0;
      var rowIndex := 0;
      while true
        invariant rowLastIndex <= |html|
        invariant rowIndex == 0 ==> rowLastIndex == 0 && stockData == []
        invariant rowIndex > 0 ==>
          stockData + RowRecords(AllMatches(html, RowOpen, RowClose, rowLastIndex)) == ParsedStocks(html)
        decreases |html| - rowLastIndex
      {
        var rowMatch := NextElement(html, RowOpen, RowClose, rowLastIndex);
        if rowMatch.None? {
          break;
        }
        var m := rowMatch.value;
        ghost var rows := AllMatches(html, RowOpen, RowClose, rowLastIndex);
        rowLastIndex := m.end;
        if rowIndex == 0 {
          rowIndex := rowIndex + 1;
          continue;
        }
        var rowContent := html[m.bodyStart..m.bodyEnd];
        ghost var rest := AllMatches(html, RowOpen, RowClose, m.end);
        ghost var before := stockData;
        assert rows == [rowContent] + rest;
        RowRecordsCons(rows);
        assert ([rowContent] + rest)[1..] == rest;

        var stock := RowStock(rowContent);
        stockData := stockData + stock.ToSeq();
        AppendAssociates(before, stock.ToSeq(), RowRecords(rest));
        rowIndex := rowIndex + 1;
      }
    }

    /** The body of `parseHTMLWithRegex`'s loop for a data row: the record made of the row's first
        13 cleaned cells, kept only when the row has 13 cells and a non-empty name. */
    method RowStock(rowContent: string) returns (stock: Option<StockRecord>)
      ensures stock == RowRecord(rowContent)
    {
      var cells := RowCellTexts(rowContent);
      stock := None;
      if |cells| >= FieldCount {
        var candidate := StockRecord(cells[..FieldCount]);
        if candidate.values[NameIndex] != [] {
          stock := Some(candidate);
        }
      }
    }

    /** The cleaning steps `parseHTMLWithRegex` applies to the text of one cell match. */
    method CleanCellText(raw: string) returns (cellText: string)
      ensures cellText == CleanCell(raw)
      ensures Trimmed(cellText)
      ensures forall k :: !OccursAt(cellText, "&gt;", k)
      ensures NoTag(raw) && '&' !in raw ==> cellText == Trim(raw)
    {
      CleanCellLeavesNoEscapedGreaterThan(raw);
      if NoTag(raw) && '&' !in raw {
        CleanCellPlainText(raw);
      }
      cellText := StripTags(raw);
      cellText := ReplaceAll(cellText, "&nbsp;", " ");
      cellText := ReplaceAll(cellText, "&amp;", "&");
      cellText := ReplaceAll(cellText, "&lt;", "<");
      cellText := ReplaceAll(cellText, "&gt;", ">");
      cellText := Trim(cellText);
    }

    /** The inner loop of `parseHTMLWithRegex`: the cleaned text of each cell match of a row, in
        order. */
    method RowCellTexts(rowContent: string) returns (cells: seq<string>)
      ensures cells == RowCells(rowContent)
    {
      cells := [];
      var cellLastIndex := 0;
      while true
        invariant cellLastIndex <= |rowContent|
        invariant cells + CleanAll(AllMatches(rowContent, CellOpen, CellClose, cellLastIndex)) == RowCells(rowContent)
        decreases |rowContent| - cellLastIndex
      {
        var cellMatch := NextElement(rowContent, CellOpen, CellClose, cellLastIndex);
        if cellMatch.None? {
          break;
        }
        var c := cellMatch.value;
        ghost var raw := AllMatches(rowContent, CellOpen, CellClose, cellLastIndex);
        ghost var later := AllMatches(rowContent, CellOpen, CellClose, c.end);
        cellLastIndex := c.end;
        var cellText := CleanCellText(rowContent[c.bodyStart..c.bodyEnd]);
        assert raw == [rowContent[c.bodyStart..c.bodyEnd]] + later;
        CleanAllCons(raw);
        assert raw[1..] == later;
        AppendAssociates(cells, [cellText], CleanAll(later));
        cells := cells + [cellText];
      }
    }

    /** `startAutoUpdate`: ignored while running; otherwise registers the callback, runs one
        fetch-and-notify and arms a repeating timer with the current period. */
    method StartAutoUpdate(callback: Option<CallbackId>, firstResponse: HttpResponse, timer: TimerId)
      requires Valid()
      modifies this
      ensures Valid()
      ensures old(isRunning) ==> unchanged(this)
      ensures !old(isRunning) ==>
        && isRunning && dataCallback == callback && intervalId == Some(timer)
        && armedTimers == map[timer := old(updateInterval)]
        && updateInterval == old(updateInterval)
        && deliveries == old(deliveries) + Notification(callback, firstResponse)
    {
      if isRunning {
        return;
      }
      dataCallback := callback;
      isRunning := true;
      FetchAndNotify(firstResponse);
      armedTimers := armedTimers[timer := updateInterval];
      intervalId := Some(timer);
    }

    /** `fetchAndNotify`, run at start and on every timer tick: fetches, and hands the records to
        the registered callback if there is one; it does not look at `isRunning`. */
    method FetchAndNotify(response: HttpResponse)
      requires forall d :: d in deliveries ==> |d.data| > 0
      modifies this`deliveries
      ensures forall d :: d in deliveries ==> |d.data| > 0
      ensures deliveries == old(deliveries) + Notification(dataCallback, response)
    {
      var data := FetchStockData(response);
      if dataCallback.Some? {
        deliveries := deliveries + [Delivery(dataCallback.value, data)];
      }
    }

    /** `stopAutoUpdate`: clears the armed timer, if any, and marks the scraper stopped. The
        resulting state does not depend on whether it was running, so stopping twice is stopping
        once. The callback stays registered. */
    method StopAutoUpdate()
      requires Valid()
      modifies this
      ensures Valid()
      ensures !isRunning && intervalId == None
      ensures armedTimers == old(armedTimers) - (if old(intervalId).Some? then {old(intervalId).value} else {})
      ensures armedTimers == map[]
      ensures dataCallback == old(dataCallback) && updateInterval == old(updateInterval)
      ensures deliveries == old(deliveries)
    {
      if intervalId.Some? {
        armedTimers := armedTimers - {intervalId.value};
        intervalId := None;
      }
      isRunning := false;
    }

    /** `setUpdateInterval`: changes the period used by the next start; a timer already armed
        keeps its period. */
    method SetUpdateInterval(interval: int)
      modifies this`updateInterval
      ensures updateInterval == interval
    {
      updateInterval := interval;
    }
  }
}
