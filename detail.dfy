/**
 * One title's detail page: the typed cells of the "ISLANDS__PreparedData"
 * state, and the `#SeriesListWrap` list that is present only on a page of
 * an ongoing series. The extraction classifies the page, takes its date
 * and builds its one-line summary of contributors and publisher.
 */
module Detail {
  import opened Wrappers
  import opened Markup
  import opened Dates
  import Text

  datatype Author = Author(name: string)

  /** One contributor role: its title ("글", "그림", ...) and the people in it. */
  datatype AuthorGroup = AuthorGroup(authors: seq<Author>, title: string)

  datatype Information = Information(publisherName: Option<string>, authorGroups: seq<AuthorGroup>)

  datatype PublishInfo = PublishInfo(pubDate: Option<string>)

  /** A cell of the detail grid, by its `type`; `Other` stands for every type not read here. */
  datatype Cell =
    | Metadata(publishInfo: seq<PublishInfo>)     // type "BookDetailHomeMetadata"
    | Header(information: Option<Information>)    // type "BookDetailHomeHeader"
    | Other

  /** One `li.js_series_book_list`; `regDate` is the text of its `li.info_reg_date`, if it has one. */
  datatype SeriesEntry = SeriesEntry(regDate: Option<string>)

  datatype DetailPage = DetailPage(
    preparedData: Option<Script<seq<Cell>>>,
    seriesListWrap: Option<seq<SeriesEntry>>)

  /** What the detail page contributes to a title. */
  datatype Comic2 = Comic2(date: CivilDate, subText: string)

  /** Every way the extraction stops, one per check of the page. */
  datatype DetailError =
    | DetailScript(cause: ScriptError)  // `#ISLANDS__PreparedData` absent, empty or malformed
    | CellsNotFound                     // the cell list is empty
    | SeriesListEmpty                   // the series container holds no entry
    | RegDateNotFound                   // the newest entry has no registration date
    | RegDateTextEmpty                  // that registration date has no text
    | MetadataNotFound                  // no metadata cell on a standalone page
    | PublishInfoMissing                // the metadata cell has no publish entry
    | DateInvalid                       // the date text does not name a calendar day
    | HeaderNotFound                    // no header cell
    | InformationNotFound               // the header cell has no information block
    | PublisherNameNotFound             // the publisher name is absent or empty
    | AuthorGroupsNotFound              // the author-group list is empty
    | AuthorsMissing                    // an author group has no first author

  predicate IsDateError(e: DetailError) {
    e.SeriesListEmpty? || e.RegDateNotFound? || e.RegDateTextEmpty?
    || e.MetadataNotFound? || e.PublishInfoMissing? || e.DateInvalid?
  }

  predicate IsSubTextError(e: DetailError) {
    e.HeaderNotFound? || e.InformationNotFound? || e.PublisherNameNotFound?
    || e.AuthorGroupsNotFound? || e.AuthorsMissing?
  }

  // ---------------------------------------------------------------------
  // Finding a cell by type

  predicate IsMetadata(c: Cell) { c.Metadata? }

  predicate IsHeader(c: Cell) { c.Header? }

  /** The index of the first element satisfying `p`, as `Array.prototype.find` locates it. */
  function FindFirst<T>(s: seq<T>, p: T -> bool): (r: Option<nat>)
    ensures r.Some? ==> r.value < |s| && p(s[r.value])
    ensures r.Some? ==> forall j :: 0 <= j < r.value ==> !p(s[j])
    ensures r.None? ==> forall j :: 0 <= j < |s| ==> !p(s[j])
  {
    if s == [] then None
    else if p(s[0]) then Some(0)
    else match FindFirst(s[1..], p)
      case None => None
      case Some(i) => Some(i + 1)
  }

  lemma FindFirstAppend<T>(s: seq<T>, t: seq<T>, p: T -> bool)
    requires FindFirst(s, p).Some?
    ensures FindFirst(s + t, p) == FindFirst(s, p)
  {
    assert forall j :: 0 <= j < |s| ==> (s + t)[j] == s[j];
  }

  // ---------------------------------------------------------------------
  // The date

  /** A series page: the registration date of the newest (last) entry, stripped to digits and dots. */
  function SeriesDate(entries: seq<SeriesEntry>): (r: Result<CivilDate, DetailError>)
    ensures r.Success? ==>
      && ValidDate(r.value) && 0 <= r.value.year < 10000 && |entries| > 0 && entries[|entries| - 1].regDate.Some?
      && var cleaned := StripDateText(entries[|entries| - 1].regDate.value);
         cleaned == FormatDate(r.value) || cleaned == FormatDay(r.value)
    ensures r.Failure? ==> r.error.SeriesListEmpty? || r.error.RegDateNotFound? || r.error.RegDateTextEmpty? || r.error.DateInvalid?
  {
    if |entries| == 0 then Failure(SeriesListEmpty)
    else match entries[|entries| - 1].regDate
      case None => Failure(RegDateNotFound)
      case Some(text) =>
        if text == "" then Failure(RegDateTextEmpty)
        else match ParseDate(StripDateText(text))
          case None => Failure(DateInvalid)
          case Some(d) => Success(d)
  }

  /** A standalone page: the first `pubDate` of the first metadata cell, read as it is. */
  function StandaloneDate(cells: seq<Cell>): (r: Result<CivilDate, DetailError>)
    ensures r.Success? ==>
      && ValidDate(r.value) && 0 <= r.value.year < 10000 && FindFirst(cells, IsMetadata).Some?
      && var info := cells[FindFirst(cells, IsMetadata).value].publishInfo;
         |info| > 0 && info[0].pubDate.Some?
         && (info[0].pubDate.value == FormatDate(r.value) || info[0].pubDate.value == FormatDay(r.value))
    ensures r.Failure? ==> r.error.MetadataNotFound? || r.error.PublishInfoMissing? || r.error.DateInvalid?
  {
    match FindFirst(cells, IsMetadata)
    case None => Failure(MetadataNotFound)
    case Some(i) =>
      var info := cells[i].publishInfo;
      if |info| == 0 then Failure(PublishInfoMissing)
      else match info[0].pubDate
        case None => Failure(DateInvalid)
        case Some(text) =>
          match ParseDate(text)
          case None => Failure(DateInvalid)
          case Some(d) => Success(d)
  }

  /** The page's date: the series container decides which source is authoritative. */
  function PageDate(page: DetailPage, cells: seq<Cell>): (r: Result<CivilDate, DetailError>)
    ensures r.Success? ==> ValidDate(r.value)
    ensures r.Failure? ==> IsDateError(r.error)
  {
    match page.seriesListWrap
    case Some(entries) => SeriesDate(entries)
    case None => StandaloneDate(cells)
  }

  // ---------------------------------------------------------------------
  // The summary line

  const PublisherSuffix: string := " 출판"

  /** "{first author} {role}" for every group, in order; None when a group has no author. */
  function AuthorParts(groups: seq<AuthorGroup>): (r: Option<seq<string>>)
    ensures r.Some? <==> forall i :: 0 <= i < |groups| ==> |groups[i].authors| > 0
    ensures r.Some? ==> |r.value| == |groups|
    ensures r.Some? ==> forall i :: 0 <= i < |groups| ==>
      r.value[i] == groups[i].authors[0].name + " " + groups[i].title
  {
    if groups == [] then Some([])
    else if |groups[0].authors| == 0 then None
    else match AuthorParts(groups[1..])
      case None => None
      case Some(rest) => Some([groups[0].authors[0].name + " " + groups[0].title] + rest)
  }

  /** The summary line of the first header cell: its author parts and its publisher, joined. */
  function SubText(cells: seq<Cell>): (r: Result<string, DetailError>)
    ensures r.Success? <==>
      && FindFirst(cells, IsHeader).Some?
      && var information := cells[FindFirst(cells, IsHeader).value].information;
         information.Some? && information.value.publisherName.Some? && information.value.publisherName.value != ""
         && |information.value.authorGroups| > 0
         && forall k :: 0 <= k < |information.value.authorGroups| ==> |information.value.authorGroups[k].authors| > 0
    ensures r.Failure? ==> IsSubTextError(r.error)
  {
    match FindFirst(cells, IsHeader)
    case None => Failure(HeaderNotFound)
    case Some(i) =>
      match cells[i].information
      case None => Failure(InformationNotFound)
      case Some(info) =>
        if info.publisherName.None? || info.publisherName.value == "" then Failure(PublisherNameNotFound)
        else if |info.authorGroups| == 0 then Failure(AuthorGroupsNotFound)
        else match AuthorParts(info.authorGroups)
          case None => Failure(AuthorsMissing)
          case Some(parts) => Success(Text.Join(parts + [info.publisherName.value + PublisherSuffix]))
  }

  // ---------------------------------------------------------------------
  // The extraction

  function ExtractDetail(page: DetailPage): (r: Result<Comic2, DetailError>)
    ensures r.Success? ==> ValidDate(r.value.date)
    // the embedded state is read first, and an empty cell list stops before any date logic
    ensures ReadScript(page.preparedData).Failure? ==> r == Failure(DetailScript(ReadScript(page.preparedData).error))
    ensures ReadScript(page.preparedData) == Success([]) ==> r == Failure(CellsNotFound)
    // a date problem is reported whatever the header holds
    ensures r.Failure? && IsSubTextError(r.error) ==>
      ReadScript(page.preparedData).Success? && PageDate(page, ReadScript(page.preparedData).value).Success?
    ensures r.Failure? && IsDateError(r.error) ==>
      ReadScript(page.preparedData).Success? && PageDate(page, ReadScript(page.preparedData).value) == Failure(r.error)
    // and conversely, a failing date step is the page's error, before the header is looked at
    ensures (ReadScript(page.preparedData).Success? && |ReadScript(page.preparedData).value| > 0
             && PageDate(page, ReadScript(page.preparedData).value).Failure?)
      ==> r == Failure(PageDate(page, ReadScript(page.preparedData).value).error)
  {
    match ReadScript(page.preparedData)
    case Failure(e) => Failure(DetailScript(e))
    case Success(cells) =>
      if |cells| == 0 then Failure(CellsNotFound)
      else
        var date :- PageDate(page, cells);
        var subText :- SubText(cells);
        Success(Comic2(date, subText))
  }

  // ---------------------------------------------------------------------
  // Properties of the extraction

  /** On a series page the date is the newest entry's registration date, whatever the header holds. */
  lemma SeriesDateIsNewestRegDate(page: DetailPage, cells: seq<Cell>, earlier: seq<SeriesEntry>, text: string, d: CivilDate)
    requires ReadScript(page.preparedData) == Success(cells) && |cells| > 0
    requires page.seriesListWrap == Some(earlier + [SeriesEntry(Some(text))])
    requires text != "" && ParseDate(StripDateText(text)) == Some(d)
    ensures SubText(cells).Success? ==> ExtractDetail(page) == Success(Comic2(d, SubText(cells).value))
    ensures SubText(cells).Failure? ==> ExtractDetail(page) == Failure(SubText(cells).error)
  {
  }

  /**
   * On a standalone page the date is the first publish date of the first
   * metadata cell, whatever the header holds.
   */
  lemma StandaloneDateIsFirstPubDate(page: DetailPage, cells: seq<Cell>, later: seq<PublishInfo>, info: seq<PublishInfo>, text: string, d: CivilDate)
    requires ReadScript(page.preparedData) == Success(cells) && page.seriesListWrap.None?
    requires FindFirst(cells, IsMetadata).Some? && cells[FindFirst(cells, IsMetadata).value] == Metadata(info)
    requires info == [PublishInfo(Some(text))] + later && ParseDate(text) == Some(d)
    ensures SubText(cells).Success? ==> ExtractDetail(page) == Success(Comic2(d, SubText(cells).value))
    ensures SubText(cells).Failure? ==> ExtractDetail(page) == Failure(SubText(cells).error)
  {
  }

  /** The ways a series page fails to give a date. */
  lemma SeriesDateErrors(page: DetailPage, cells: seq<Cell>, entries: seq<SeriesEntry>)
    requires ReadScript(page.preparedData) == Success(cells) && |cells| > 0
    requires page.seriesListWrap == Some(entries)
    ensures entries == [] ==> ExtractDetail(page) == Failure(SeriesListEmpty)
    ensures entries != [] && entries[|entries| - 1].regDate.None? ==> ExtractDetail(page) == Failure(RegDateNotFound)
    ensures entries != [] && entries[|entries| - 1].regDate == Some("") ==> ExtractDetail(page) == Failure(RegDateTextEmpty)
    ensures entries != [] && entries[|entries| - 1].regDate.Some? && entries[|entries| - 1].regDate != Some("")
      && ParseDate(StripDateText(entries[|entries| - 1].regDate.value)) == None
      ==> ExtractDetail(page) == Failure(DateInvalid)
  {
    assert StripDateText("") == "";
  }

  /** The ways a standalone page fails to give a date. */
  lemma StandaloneDateErrors(page: DetailPage, cells: seq<Cell>)
    requires ReadScript(page.preparedData) == Success(cells) && |cells| > 0
    requires page.seriesListWrap.None?
    ensures (forall j :: 0 <= j < |cells| ==> !cells[j].Metadata?) ==> ExtractDetail(page) == Failure(MetadataNotFound)
    ensures FindFirst(cells, IsMetadata).Some? && cells[FindFirst(cells, IsMetadata).value].publishInfo == []
      ==> ExtractDetail(page) == Failure(PublishInfoMissing)
    // a missing or unreadable first publish date is an invalid date
    ensures forall i ::
      (FindFirst(cells, IsMetadata) == Some(i) && |cells[i].publishInfo| > 0
       && (cells[i].publishInfo[0].pubDate.None? || ParseDate(cells[i].publishInfo[0].pubDate.value).None?))
      ==> ExtractDetail(page) == Failure(DateInvalid)
  {
  }

  /** Once the date is known, a failing summary line fails the page with its error. */
  lemma SubTextErrorsFailPage(page: DetailPage, cells: seq<Cell>)
    requires ReadScript(page.preparedData) == Success(cells) && |cells| > 0
    requires PageDate(page, cells).Success? && SubText(cells).Failure?
    ensures ExtractDetail(page) == Failure(SubText(cells).error)
  {
  }

  /** The ways the summary line fails, in the order they are checked. */
  lemma SubTextErrors(cells: seq<Cell>, i: nat, info: Information)
    ensures (forall j :: 0 <= j < |cells| ==> !cells[j].Header?) ==> SubText(cells) == Failure(HeaderNotFound)
    ensures FindFirst(cells, IsHeader) == Some(i) && cells[i].information.None? ==> SubText(cells) == Failure(InformationNotFound)
    ensures FindFirst(cells, IsHeader) == Some(i) && cells[i].information == Some(info) ==>
      && (info.publisherName.None? ==> SubText(cells) == Failure(PublisherNameNotFound))
      && (info.publisherName == Some("") ==> SubText(cells) == Failure(PublisherNameNotFound))
      && (info.publisherName.Some? && info.publisherName.value != "" && info.authorGroups == [] ==>
            SubText(cells) == Failure(AuthorGroupsNotFound))
      && (info.publisherName.Some? && info.publisherName.value != "" ==>
            forall k :: 0 <= k < |info.authorGroups| && info.authorGroups[k].authors == [] ==>
              SubText(cells) == Failure(AuthorsMissing))
  {
  }

  /** On a series page only the newest entry is read: the earlier entries do not matter. */
  lemma SeriesOnlyNewestEntryMatters(page: DetailPage, earlier1: seq<SeriesEntry>, earlier2: seq<SeriesEntry>, newest: SeriesEntry)
    requires page.seriesListWrap == Some(earlier1 + [newest])
    ensures ExtractDetail(page) == ExtractDetail(page.(seriesListWrap := Some(earlier2 + [newest])))
  {
    var page2 := page.(seriesListWrap := Some(earlier2 + [newest]));
    assert SeriesDate(earlier1 + [newest]) == SeriesDate(earlier2 + [newest]);
    assert page2.preparedData == page.preparedData;
  }

  /**
   * A further metadata cell placed after the others changes nothing: a
   * series page never reads metadata, and a standalone page reads only the
   * first metadata cell.
   */
  lemma {:induction false} LaterMetadataIgnored(page: DetailPage, cells: seq<Cell>, extra: seq<PublishInfo>)
    requires page.preparedData.Some? && page.preparedData.value.textContent != ""
    requires page.preparedData.value.parsed == Some(cells) && |cells| > 0
    requires page.seriesListWrap.Some? || FindFirst(cells, IsMetadata).Some?
    ensures ExtractDetail(page) ==
      ExtractDetail(page.(preparedData := Some(Script(page.preparedData.value.textContent, Some(cells + [Metadata(extra)])))))
  {
    var cells2 := cells + [Metadata(extra)];
    var page2 := page.(preparedData := Some(Script(page.preparedData.value.textContent, Some(cells2))));
    assert ReadScript(page.preparedData) == Success(cells);
    assert ReadScript(page2.preparedData) == Success(cells2);
    HeaderUnchangedByMetadata(cells, extra);
    if page.seriesListWrap.None? {
      FindFirstAppend(cells, [Metadata(extra)], IsMetadata);
      assert cells2[FindFirst(cells, IsMetadata).value] == cells[FindFirst(cells, IsMetadata).value];
      assert StandaloneDate(cells2) == StandaloneDate(cells);
    }
    assert PageDate(page2, cells2) == PageDate(page, cells);
  }

  lemma HeaderUnchangedByMetadata(cells: seq<Cell>, extra: seq<PublishInfo>)
    ensures SubText(cells + [Metadata(extra)]) == SubText(cells)
  {
    var cells2 := cells + [Metadata(extra)];
    if FindFirst(cells, IsHeader).Some? {
      FindFirstAppend(cells, [Metadata(extra)], IsHeader);
      assert cells2[FindFirst(cells, IsHeader).value] == cells[FindFirst(cells, IsHeader).value];
    } else {
      assert forall j :: 0 <= j < |cells2| ==> !IsHeader(cells2[j]) by {
        forall j | 0 <= j < |cells2| ensures !IsHeader(cells2[j]) {
          if j < |cells| { assert cells2[j] == cells[j]; }
        }
      }
    }
  }

  /** The summary line is the author parts and the publisher part, and splits back into them. */
  lemma SubTextParts(cells: seq<Cell>)
    requires SubText(cells).Success?
    ensures
      var info := cells[FindFirst(cells, IsHeader).value].information.value;
      var parts := AuthorParts(info.authorGroups).value + [info.publisherName.value + PublisherSuffix];
      && |info.authorGroups| > 0
      && SubText(cells).value == Text.Join(AuthorParts(info.authorGroups).value) + Text.Separator + info.publisherName.value + PublisherSuffix
      && ((forall i :: 0 <= i < |parts| ==> Text.NoBar(parts[i])) ==> Text.Split(SubText(cells).value) == parts)
  {
    var info := cells[FindFirst(cells, IsHeader).value].information.value;
    var authorParts := AuthorParts(info.authorGroups).value;
    var parts := authorParts + [info.publisherName.value + PublisherSuffix];
    Text.JoinSnoc(authorParts, info.publisherName.value + PublisherSuffix);
    if forall i :: 0 <= i < |parts| ==> Text.NoBar(parts[i]) {
      Text.SplitJoin(parts);
    }
  }

  // ---------------------------------------------------------------------
  // A worked page

  /** The store's label after a registration date, "등록" (registered). */
  const RegisteredLabel: string := " 등록"

  /** A header cell: authors A (글, story) and B (그림, art), publisher P. */
  const SampleHeader: Cell :=
    Header(Some(Information(Some("P"), [AuthorGroup([Author("A")], "글"), AuthorGroup([Author("B")], "그림")])))

  /** A metadata cell with the given publish entries, followed by the sample header. */
  function SampleCells(publishInfo: seq<PublishInfo>): seq<Cell>
  {
    [Metadata(publishInfo), SampleHeader]
  }

  lemma SampleAuthorParts()
    ensures AuthorParts(SampleHeader.information.value.authorGroups) == Some(["A 글", "B 그림"])
  {
    var groups := SampleHeader.information.value.authorGroups;
    assert groups == [AuthorGroup([Author("A")], "글"), AuthorGroup([Author("B")], "그림")];
    assert "A" + " " + "글" == "A 글" && "B" + " " + "그림" == "B 그림";
    assert groups[1..] == [groups[1]] && groups[1..][1..] == [];
    assert AuthorParts(groups[1..][1..]) == Some([]);
    assert groups[1].authors[0].name + " " + groups[1].title == "B 그림";
    assert [groups[1].authors[0].name + " " + groups[1].title] + [] == ["B 그림"];
    assert AuthorParts(groups[1..]) == Some(["B 그림"]);
    assert [groups[0].authors[0].name + " " + groups[0].title] + ["B 그림"] == ["A 글", "B 그림"];
  }

  lemma SampleJoin()
    ensures Text.Join(["A 글", "B 그림"] + ["P" + PublisherSuffix]) == "A 글 | B 그림 | P 출판"
  {
    var parts := ["A 글", "B 그림", "P 출판"];
    assert "P" + PublisherSuffix == "P 출판";
    assert ["A 글", "B 그림"] + ["P" + PublisherSuffix] == parts;
    assert parts[1..] == ["B 그림", "P 출판"] && parts[1..][1..] == ["P 출판"];
    assert Text.Join(parts[1..]) == "B 그림" + Text.Separator + "P 출판" == "B 그림 | P 출판";
    assert Text.Join(parts) == "A 글" + Text.Separator + "B 그림 | P 출판" == "A 글 | B 그림 | P 출판";
  }

  /** The summary line of the sample header: each role in order, then the publisher. */
  lemma SampleSubText(publishInfo: seq<PublishInfo>)
    ensures SubText(SampleCells(publishInfo)) == Success("A 글 | B 그림 | P 출판")
  {
    var cells := SampleCells(publishInfo);
    assert FindFirst(cells, IsHeader) == Some(1) by {
      assert !IsHeader(cells[0]) && IsHeader(cells[1]);
    }
    SampleAuthorParts();
    SampleJoin();
  }

  /**
   * A series page whose newest entry reads "yyyy.mm.dd. 등록" is dated by
   * that registration date, whatever its metadata cell (even a later
   * publish date) and whatever its earlier entries say.
   */
  lemma LabelledRegDateWins(publishInfo: seq<PublishInfo>, earlier: seq<SeriesEntry>, d: CivilDate)
    requires ValidDate(d) && 0 <= d.year < 10000
    ensures
      ExtractDetail(DetailPage(Some(Script("{}", Some(SampleCells(publishInfo)))),
                               Some(earlier + [SeriesEntry(Some(FormatDate(d) + RegisteredLabel))])))
      == Success(Comic2(d, "A 글 | B 그림 | P 출판"))
  {
    SampleSubText(publishInfo);
    var text := FormatDate(d) + RegisteredLabel;
    NoisyRegDateParses("", d, RegisteredLabel);
    assert "" + FormatDate(d) + RegisteredLabel == text;
    var page := DetailPage(Some(Script("{}", Some(SampleCells(publishInfo)))), Some(earlier + [SeriesEntry(Some(text))]));
    SeriesDateIsNewestRegDate(page, SampleCells(publishInfo), earlier, text, d);
  }

  /** The same cells without a series list are dated by the metadata cell's first publish date. */
  lemma StandaloneSampleUsesPubDate(later: seq<PublishInfo>, d: CivilDate)
    requires ValidDate(d) && 0 <= d.year < 10000
    ensures
      ExtractDetail(DetailPage(Some(Script("{}", Some(SampleCells([PublishInfo(Some(FormatDate(d)))] + later)))), None))
      == Success(Comic2(d, "A 글 | B 그림 | P 출판"))
  {
    var info := [PublishInfo(Some(FormatDate(d)))] + later;
    SampleSubText(info);
    ParseFormatDate(d);
    var cells := SampleCells(info);
    var page := DetailPage(Some(Script("{}", Some(cells))), None);
    assert FindFirst(cells, IsMetadata) == Some(0) by { assert IsMetadata(cells[0]); }
    StandaloneDateIsFirstPubDate(page, cells, later, info, FormatDate(d), d);
  }
}
