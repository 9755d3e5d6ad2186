/**
 * The graphical front end `app_book_infos.py`: the ISBN-to-PPN resolver, the
 * PPN-to-record fetcher, and the decision `on_search` makes before it shows
 * its dialog. The two HTTP endpoints are parameters: `getPpn` is what
 * `requests.get` yields for the `isbn2ppn` service, `getRdf` for the RDF
 * record service, each already passed through `ET.fromstring`.
 */
module BookInfos {
  import opened Wrappers
  import opened PyStr
  import opened Sudoc

  const IsbnServicePrefix: string := "https://www.sudoc.fr/services/isbn2ppn/"
  const RecordPrefix: string := "http://www.sudoc.fr/"
  const RecordSuffix: string := ".rdf"

  /** The `isbn2ppn` URL: the fixed prefix, then the ISBN verbatim, so the ISBN can be read back. */
  function IsbnUrl(isbn: string): (url: string)
    ensures |url| == |IsbnServicePrefix| + |isbn|
    ensures url[..|IsbnServicePrefix|] == IsbnServicePrefix
    ensures url[|IsbnServicePrefix|..] == isbn
  {
    IsbnServicePrefix + isbn
  }

  /** The record URL: the fixed prefix, the PPN verbatim, then `.rdf`. */
  function RdfUrl(ppn: string): (url: string)
    ensures |url| == |RecordPrefix| + |ppn| + |RecordSuffix|
    ensures url[..|RecordPrefix|] == RecordPrefix
    ensures url[|RecordPrefix|..|url| - |RecordSuffix|] == ppn
    ensures url[|url| - |RecordSuffix|..] == RecordSuffix
  {
    RecordPrefix + ppn + RecordSuffix
  }

  /**
   * `obtenir_ppn_depuis_isbn`. A status other than 200 is "not found", whatever
   * the body; an exception from the request or from the parse is not caught.
   * A returned PPN is always the text of a `result/ppn` element of a 200 answer.
   */
  function ResolvePpn(isbn: string, getPpn: string -> Transport<PpnDoc>): (r: Outcome<Option<string>>)
    ensures var t := getPpn(IsbnUrl(isbn));
      && (!t.Response? ==> r == Raised(RequestError))
      && (t.Response? && t.status != 200 ==> r == Returned(None))
      && (IsOk(t) && t.body.Malformed? ==> r == Raised(ParseError))
      && (IsOk(t) && t.body.Parsed? && t.body.doc.ppn.None? ==> r == Returned(None))
      && (IsOk(t) && t.body.Parsed? && t.body.doc.ppn.Some? ==> r == Returned(t.body.doc.ppn.value.text))
    ensures var t := getPpn(IsbnUrl(isbn));
      r.Returned? && r.value.Some? ==>
        IsOk(t) && t.body.Parsed? && t.body.doc.ppn.Some? && t.body.doc.ppn.value.text == r.value
  {
    var t := getPpn(IsbnUrl(isbn));
    if !t.Response? then Raised(RequestError)
    else if t.status != 200 then Returned(None)
    else match t.body
      case Malformed => Raised(ParseError)
      case Parsed(tree) => Returned(if tree.ppn.Some? then tree.ppn.value.text else None)
  }

  /**
   * `titre_element.text.split('/')[0].strip()`: the part before the first
   * `/`, trimmed. It never holds a `/` and never starts or ends with whitespace.
   */
  function CleanTitle(text: string): (t: string)
    ensures '/' !in t && NoEdgeSpace(t)
  {
    Strip(SplitFirst(text, '/'))
  }

  /**
   * The `infos` dictionary built from a parsed record. The title is cleaned,
   * or `Inconnu` when the element or its text is missing; author, publisher
   * and date are the raw element text, and their sentinel stands in only for
   * a missing element.
   */
  function ExtractRecord(tree: RdfDoc): (rec: Record)
    ensures tree.title.Some? && tree.title.value.text.Some? ==> rec.titre == CleanTitle(tree.title.value.text.value)
    ensures tree.title.None? || tree.title.value.text.None? ==> rec.titre == Unknown
    ensures '/' !in rec.titre && NoEdgeSpace(rec.titre)
    ensures tree.name.None? ==> rec.auteur == Some(Unknown)
    ensures tree.name.Some? ==> rec.auteur == tree.name.value.text
    ensures tree.publisher.None? ==> rec.editeur == Some(Unknown)
    ensures tree.publisher.Some? ==> rec.editeur == tree.publisher.value.text
    ensures tree.date.None? ==> rec.date == Some(UnknownDate)
    ensures tree.date.Some? ==> rec.date == tree.date.value.text
  {
    var titre :=
      if tree.title.Some? && tree.title.value.text.Some? then CleanTitle(tree.title.value.text.value) else Unknown;
    UnknownIsClean();
    Record(
      titre,
      if tree.name.Some? then tree.name.value.text else Some(Unknown),
      if tree.publisher.Some? then tree.publisher.value.text else Some(Unknown),
      if tree.date.Some? then tree.date.value.text else Some(UnknownDate))
  }

  /**
   * `obtenir_metadonnees_depuis_ppn`. A record comes back exactly when the
   * answer has status 200 and parses; a timeout, any other request failure,
   * another status or a parse failure all give `None`. There is no partial record.
   */
  function FetchRecord(ppn: string, getRdf: string -> Transport<RdfDoc>): (r: Option<Record>)
    ensures var t := getRdf(RdfUrl(ppn));
      r.Some? <==> IsOk(t) && t.body.Parsed?
    ensures var t := getRdf(RdfUrl(ppn));
      r.Some? ==> r.value == ExtractRecord(t.body.doc)
  {
    var t := getRdf(RdfUrl(ppn));
    match t
    case Timeout => None
    case RequestFailure => None
    case Response(status, body) =>
      if status != 200 then None
      else match body
        case Malformed => None
        case Parsed(tree) => Some(ExtractRecord(tree))
  }

  /** The dialog text for a record: four labelled lines, Titre first. */
  function ResultText(infos: Record): (text: string)
    ensures |text| > 7 && text[..7] == "Titre: "
  {
    "Titre: " + infos.titre + "\nAuteur: " + Show(infos.auteur)
    + "\nÉditeur: " + Show(infos.editeur) + "\nDate: " + Show(infos.date)
  }

  /** The three outcome texts of a search can never be confused. */
  lemma OutcomeTextsDistinct(infos: Record)
    ensures ResultText(infos) != NoPpnMessage
    ensures ResultText(infos) != NoRecordMessage
    ensures NoPpnMessage != NoRecordMessage
  {
    var text := ResultText(infos);
    assert text[0] == 'T';
    assert NoPpnMessage[0] == 'A' && NoRecordMessage[0] == 'A';
    assert NoPpnMessage[5] != NoRecordMessage[5];
  }

  /**
   * What `on_search` shows for an ISBN. The record is fetched only for a
   * truthy PPN; the two "nothing found" texts are distinct from each other
   * and from a record. An exception from the resolver escapes the callback.
   */
  function OnSearch(isbn: string, getPpn: string -> Transport<PpnDoc>, getRdf: string -> Transport<RdfDoc>): (r: Outcome<string>)
    ensures var p := ResolvePpn(isbn, getPpn);
      && (r.Raised? <==> p.Raised?)
      && (r.Raised? ==> r.error == p.error)
    ensures var p := ResolvePpn(isbn, getPpn);
      r == Returned(NoPpnMessage) <==> p.Returned? && !Truthy(p.value)
    ensures var p := ResolvePpn(isbn, getPpn);
      r == Returned(NoRecordMessage) <==>
        p.Returned? && Truthy(p.value) && FetchRecord(p.value.value, getRdf).None?
    ensures var p := ResolvePpn(isbn, getPpn);
      p.Returned? && Truthy(p.value) && FetchRecord(p.value.value, getRdf).Some? ==>
        r == Returned(ResultText(FetchRecord(p.value.value, getRdf).value))
  {
    var ppn := ResolvePpn(isbn, getPpn);
    if ppn.Raised? then Raised(ppn.error)
    else if !Truthy(ppn.value) then Returned(NoPpnMessage)
    else
      var infos := FetchRecord(ppn.value.value, getRdf);
      if infos.Some? then
        OutcomeTextsDistinct(infos.value);
        Returned(ResultText(infos.value))
      else
        assert NoPpnMessage[5] != NoRecordMessage[5];
        Returned(NoRecordMessage)
  }

  // ---------------------------------------------------------------------
  // Title extraction

  /**
   * The title is the text before the first `/` with its whitespace trimmed at
   * both ends: nothing but whitespace is removed around it.
   */
  lemma TitleIsTrimmedHead(text: string)
    ensures IsTrimOf(CleanTitle(text), SplitFirst(text, '/'))
  {
    StripIsTrim(SplitFirst(text, '/'));
  }

  /** Cleaning a title a second time changes nothing. */
  lemma TitleIdempotent(text: string)
    ensures CleanTitle(CleanTitle(text)) == CleanTitle(text)
  {
    var t := CleanTitle(text);
    SplitFirstKeeps(t, '/');
    StripKeeps(t);
  }

  /** Without a `/`, the title is the whole text, trimmed. */
  lemma TitleWithoutSlash(text: string)
    requires '/' !in text
    ensures CleanTitle(text) == Strip(text)
  {
    SplitFirstKeeps(text, '/');
  }

  /**
   * Whatever follows the first `/` is dropped, and so is the whitespace around
   * the title proper.
   */
  lemma TitleDropsSubtitle(lead: string, t: string, trail: string, rest: string)
    requires SpaceBetween(lead, 0, |lead|) && SpaceBetween(trail, 0, |trail|) && '/' !in t && NoEdgeSpace(t)
    ensures CleanTitle(lead + t + trail + "/" + rest) == t
  {
    var head := lead + t + trail;
    var s := head + "/" + rest;
    var j := |lead| + |t|;
    assert forall k :: 0 <= k < |lead| ==> head[k] == lead[k];
    assert forall k :: 0 <= k < |trail| ==> head[j + k] == trail[k];
    assert forall k :: 0 <= k < |t| ==> head[|lead| + k] == t[k];
    assert '/' !in head by {
      forall k | 0 <= k < |head| ensures head[k] != '/' {
        if k < |lead| { assert IsSpace(lead[k]); }
        else if k >= j { assert IsSpace(trail[k - j]); }
        else { assert head[k] == t[k - |lead|]; }
      }
    }
    assert head <= s && s[|head|] == '/';
    SplitFirstUnique(s, '/', head);
    assert head[|lead|..j] == t;
    StripUnique(head, |lead|, j);
  }

  /** "Madame Bovary / Gustave Flaubert" gives "Madame Bovary". */
  lemma TitleBovary()
    ensures CleanTitle("Madame Bovary / Gustave Flaubert") == "Madame Bovary"
  {
    var t := "Madame Bovary";
    assert t[0] == 'M' && t[|t| - 1] == 'y';
    assert " " [0] == ' ';
    assert "" + t + " " + "/" + " Gustave Flaubert" == "Madame Bovary / Gustave Flaubert";
    TitleDropsSubtitle("", t, " ", " Gustave Flaubert");
  }

  /** "Les Misérables / roman" gives "Les Misérables". */
  lemma TitleMiserables()
    ensures CleanTitle("Les Misérables / roman") == "Les Misérables"
  {
    var t := "Les Misérables";
    assert t[0] == 'L' && t[|t| - 1] == 's';
    assert " " [0] == ' ';
    assert "" + t + " " + "/" + " roman" == "Les Misérables / roman";
    TitleDropsSubtitle("", t, " ", " roman");
  }

  // ---------------------------------------------------------------------
  // Field defaulting

  /** A present element without text yields `None`, not the sentinel, for the three raw fields. */
  lemma RawFieldNoneIffTextless(tree: RdfDoc)
    ensures ExtractRecord(tree).auteur.None? <==> tree.name == Some(Element(None))
    ensures ExtractRecord(tree).editeur.None? <==> tree.publisher == Some(Element(None))
    ensures ExtractRecord(tree).date.None? <==> tree.date == Some(Element(None))
  {
  }

  /** Each field depends only on its own element. */
  lemma FieldsIndependent(a: RdfDoc, b: RdfDoc)
    ensures a.title == b.title ==> ExtractRecord(a).titre == ExtractRecord(b).titre
    ensures a.name == b.name ==> ExtractRecord(a).auteur == ExtractRecord(b).auteur
    ensures a.publisher == b.publisher ==> ExtractRecord(a).editeur == ExtractRecord(b).editeur
    ensures a.date == b.date ==> ExtractRecord(a).date == ExtractRecord(b).date
  {
  }

  /** Dropping the publisher element changes only the publisher, to the sentinel. */
  lemma MissingPublisher(tree: RdfDoc)
    ensures ExtractRecord(tree.(publisher := None)) == ExtractRecord(tree).(editeur := Some(Unknown))
  {
  }

  // ---------------------------------------------------------------------
  // Composition

  /** Without a truthy PPN the record service is never consulted. */
  lemma SearchWithoutPpnSkipsRecord(isbn: string, getPpn: string -> Transport<PpnDoc>,
                                    getRdf: string -> Transport<RdfDoc>, other: string -> Transport<RdfDoc>)
    requires ResolvePpn(isbn, getPpn).Returned? && !Truthy(ResolvePpn(isbn, getPpn).value)
    ensures OnSearch(isbn, getPpn, getRdf) == OnSearch(isbn, getPpn, other) == Returned(NoPpnMessage)
  {
  }

  /** The record service is consulted only at the record URL of the resolved PPN. */
  lemma SearchReadsOnlyRecordUrl(isbn: string, getPpn: string -> Transport<PpnDoc>,
                                 getRdf: string -> Transport<RdfDoc>, other: string -> Transport<RdfDoc>)
    requires var p := ResolvePpn(isbn, getPpn);
      p.Returned? && Truthy(p.value) ==> getRdf(RdfUrl(p.value.value)) == other(RdfUrl(p.value.value))
    ensures OnSearch(isbn, getPpn, getRdf) == OnSearch(isbn, getPpn, other)
  {
  }

  /** A resolver answer other than 200 means "no PPN", whatever the record service would say. */
  lemma SearchResolverNotFound(isbn: string, getPpn: string -> Transport<PpnDoc>, getRdf: string -> Transport<RdfDoc>)
    requires getPpn(IsbnUrl(isbn)).Response? && getPpn(IsbnUrl(isbn)).status != 200
    ensures OnSearch(isbn, getPpn, getRdf) == Returned(NoPpnMessage)
  {
  }

  /** A timeout, another failure, a status other than 200 or a bad body at the record service all mean "no record". */
  lemma SearchRecordUnavailable(isbn: string, getPpn: string -> Transport<PpnDoc>, getRdf: string -> Transport<RdfDoc>)
    requires var p := ResolvePpn(isbn, getPpn); p.Returned? && Truthy(p.value)
    requires var t := getRdf(RdfUrl(ResolvePpn(isbn, getPpn).value.value));
      !IsOk(t) || t.body.Malformed?
    ensures OnSearch(isbn, getPpn, getRdf) == Returned(NoRecordMessage)
  {
  }

  /** A full run for "9782070409190", from the PPN "027630043" to the dialog text. */
  lemma SearchExample(getPpn: string -> Transport<PpnDoc>, getRdf: string -> Transport<RdfDoc>)
    requires getPpn(IsbnUrl("9782070409190")) == Response(200, Parsed(PpnDoc(Some(Element(Some("027630043"))))))
    requires getRdf(RdfUrl("027630043")) == Response(200, Parsed(RdfDoc(
               Some(Element(Some("Madame Bovary / Gustave Flaubert"))), Some(Element(Some("Gustave Flaubert"))),
               Some(Element(Some("Gallimard"))), Some(Element(Some("1972"))))))
    ensures ResolvePpn("9782070409190", getPpn) == Returned(Some("027630043"))
    ensures FetchRecord("027630043", getRdf)
      == Some(Record("Madame Bovary", Some("Gustave Flaubert"), Some("Gallimard"), Some("1972")))
    ensures OnSearch("9782070409190", getPpn, getRdf)
      == Returned(ResultText(Record("Madame Bovary", Some("Gustave Flaubert"), Some("Gallimard"), Some("1972"))))
  {
    var rec := Record("Madame Bovary", Some("Gustave Flaubert"), Some("Gallimard"), Some("1972"));
    TitleBovary();
    assert ExtractRecord(getRdf(RdfUrl("027630043")).body.doc) == rec;
    assert FetchRecord("027630043", getRdf) == Some(rec);
    assert Truthy(Some("027630043"));
  }
}
