/**
 * The command-line front end `sudoc_script.py`. It carries its own copy of
 * the resolver and the fetcher; the lemmas at the end show that the copies
 * agree with those of the graphical front end on every input, and that both
 * front ends reach the same outcome for every ISBN and every pair of services.
 * The prompt and the printing are left out: the model gives the lines the
 * script prints after the prompt, in order, apart from the fetcher's
 * diagnostic line.
 */
module SudocScript {
  import opened Wrappers
  import opened PyStr
  import opened Sudoc
  import BookInfos

  const IsbnServicePrefix: string := "https://www.sudoc.fr/services/isbn2ppn/"
  const RecordPrefix: string := "http://www.sudoc.fr/"
  const RecordSuffix: string := ".rdf"
  const PpnFoundPrefix: string := "PPN trouvé : "

  /** The `isbn2ppn` URL: the fixed prefix, then the ISBN verbatim. */
  function IsbnUrl(isbn: string): (url: string)
    ensures |url| == |IsbnServicePrefix| + |isbn|
    ensures url[..|IsbnServicePrefix|] == IsbnServicePrefix
    ensures url[|IsbnServicePrefix|..] == isbn
  {
    IsbnServicePrefix + isbn
  }

  /** The record URL: the fixed prefix, the PPN verbatim, then `.rdf`. */
  function RdfUrl(ppn: string): (url: string)
    ensures |url| == |RecordPrefix| + |ppn| + |RecordSuffix|
    ensures url[..|RecordPrefix|] == RecordPrefix
    ensures url[|RecordPrefix|..|url| - |RecordSuffix|] == ppn
    ensures url[|url| - |RecordSuffix|..] == RecordSuffix
  {
    RecordPrefix + ppn + RecordSuffix
  }

  /**
   * `obtenir_ppn_depuis_isbn`: "not found" for a status other than 200,
   * otherwise the text of `result/ppn` if there is one; a request or parse
   * failure escapes.
   */
  function ResolvePpn(isbn: string, getPpn: string -> Transport<PpnDoc>): (r: Outcome<Option<string>>)
    ensures var t := getPpn(IsbnUrl(isbn));
      && (!t.Response? ==> r == Raised(RequestError))
      && (t.Response? && t.status != 200 ==> r == Returned(None))
      && (IsOk(t) && t.body.Malformed? ==> r == Raised(ParseError))
      && (IsOk(t) && t.body.Parsed? && t.body.doc.ppn.None? ==> r == Returned(None))
      && (IsOk(t) && t.body.Parsed? && t.body.doc.ppn.Some? ==> r == Returned(t.body.doc.ppn.value.text))
  {
    var t := getPpn(IsbnUrl(isbn));
    if !t.Response? then Raised(RequestError)
    else if t.status != 200 then Returned(None)
    else match t.body
      case Malformed => Raised(ParseError)
      case Parsed(tree) => Returned(if tree.ppn.Some? then tree.ppn.value.text else None)
  }

  /**
   * The `infos` dictionary: the title cut at the first `/` and trimmed, or
   * `Inconnu`; the other three raw, with a sentinel only for a missing element.
   */
  function ExtractRecord(tree: RdfDoc): (rec: Record)
    ensures tree.title.None? || tree.title.value.text.None? ==> rec.titre == Unknown
    ensures '/' !in rec.titre && NoEdgeSpace(rec.titre)
    ensures tree.name.None? ==> rec.auteur == Some(Unknown)
    ensures tree.name.Some? ==> rec.auteur == tree.name.value.text
    ensures tree.publisher.None? ==> rec.editeur == Some(Unknown)
    ensures tree.publisher.Some? ==> rec.editeur == tree.publisher.value.text
    ensures tree.date.None? ==> rec.date == Some(UnknownDate)
    ensures tree.date.Some? ==> rec.date == tree.date.value.text
  {
    var titre :=
      if tree.title.Some? && tree.title.value.text.Some? then
        Strip(SplitFirst(tree.title.value.text.value, '/'))
      else Unknown;
    UnknownIsClean();
    Record(
      titre,
      if tree.name.Some? then tree.name.value.text else Some(Unknown),
      if tree.publisher.Some? then tree.publisher.value.text else Some(Unknown),
      if tree.date.Some? then tree.date.value.text else Some(UnknownDate))
  }

  /**
   * `obtenir_metadonnees_depuis_ppn`: a complete record exactly for a parsed
   * answer with status 200; `None` for a timeout, any other failure, another
   * status or a body that does not parse.
   */
  function FetchRecord(ppn: string, getRdf: string -> Transport<RdfDoc>): (r: Option<Record>)
    ensures var t := getRdf(RdfUrl(ppn));
      r.Some? <==> IsOk(t) && t.body.Parsed?
    ensures var t := getRdf(RdfUrl(ppn));
      r.Some? ==> r.value == ExtractRecord(t.body.doc)
  {
    var t := getRdf(RdfUrl(ppn));
    match t
    case Timeout => None
    case RequestFailure => None
    case Response(status, body) =>
      if status != 200 then None
      else match body
        case Malformed => None
        case Parsed(tree) => Some(ExtractRecord(tree))
  }

  /** The four labelled lines printed for a record, Titre first. */
  function RecordLines(infos: Record): (lines: seq<string>)
    ensures |lines| == 4
    ensures lines[0] == "Titre du livre : " + infos.titre
  {
    ["Titre du livre : " + infos.titre, "Auteur : " + Show(infos.auteur),
     "Éditeur : " + Show(infos.editeur), "Date : " + Show(infos.date)]
  }

  /**
   * The module-level script: the lines it prints after the prompt, apart
   * from the fetcher's diagnostic line. The
   * metadata lookup happens only for a truthy PPN, and then the line
   * "PPN trouvé : ..." comes before anything else.
   */
  function ScriptOutput(isbn: string, getPpn: string -> Transport<PpnDoc>, getRdf: string -> Transport<RdfDoc>)
    : (r: Outcome<seq<string>>)
    ensures var p := ResolvePpn(isbn, getPpn);
      && (r.Raised? <==> p.Raised?)
      && (r.Raised? ==> r.error == p.error)
    ensures var p := ResolvePpn(isbn, getPpn);
      r == Returned([NoPpnMessage]) <==> p.Returned? && !Truthy(p.value)
    ensures var p := ResolvePpn(isbn, getPpn);
      p.Returned? && Truthy(p.value) ==>
        && r.Returned? && |r.value| >= 2
        && r.value[0] == PpnFoundPrefix + p.value.value
        && (r.value[1..] == [NoRecordMessage] <==> FetchRecord(p.value.value, getRdf).None?)
        && (FetchRecord(p.value.value, getRdf).Some? ==>
              r.value[1..] == RecordLines(FetchRecord(p.value.value, getRdf).value))
  {
    var ppn := ResolvePpn(isbn, getPpn);
    if ppn.Raised? then Raised(ppn.error)
    else if !Truthy(ppn.value) then Returned([NoPpnMessage])
    else
      var found := PpnFoundPrefix + ppn.value.value;
      var infos := FetchRecord(ppn.value.value, getRdf);
      if infos.Some? then
        var lines := [found] + RecordLines(infos.value);
        assert lines[1..] == RecordLines(infos.value);
        Returned(lines)
      else
        Returned([found, NoRecordMessage])
  }

  // ---------------------------------------------------------------------
  // The two front ends agree

  /** Both files build the same two URLs. */
  lemma UrlsAgree(isbn: string, ppn: string)
    ensures IsbnUrl(isbn) == BookInfos.IsbnUrl(isbn)
    ensures RdfUrl(ppn) == BookInfos.RdfUrl(ppn)
  {
  }

  /** The two resolvers agree on every ISBN and every answer of the service. */
  lemma ResolveAgrees(isbn: string, getPpn: string -> Transport<PpnDoc>)
    ensures ResolvePpn(isbn, getPpn) == BookInfos.ResolvePpn(isbn, getPpn)
  {
    UrlsAgree(isbn, "");
  }

  /** The two extractions build the same `infos` dictionary from every document. */
  lemma ExtractAgrees(tree: RdfDoc)
    ensures ExtractRecord(tree) == BookInfos.ExtractRecord(tree)
  {
  }

  /** The two fetchers agree on every PPN and every answer of the service. */
  lemma FetchAgrees(ppn: string, getRdf: string -> Transport<RdfDoc>)
    ensures FetchRecord(ppn, getRdf) == BookInfos.FetchRecord(ppn, getRdf)
  {
    UrlsAgree("", ppn);
    var t := getRdf(RdfUrl(ppn));
    if IsOk(t) && t.body.Parsed? {
      ExtractAgrees(t.body.doc);
    }
  }

  /**
   * For every ISBN and every pair of services, the script and the dialog
   * report the same one of the three outcomes (or the same escaping error),
   * and when a record comes back both show that same record.
   */
  lemma ScriptMatchesSearch(isbn: string, getPpn: string -> Transport<PpnDoc>, getRdf: string -> Transport<RdfDoc>)
    ensures var out := ScriptOutput(isbn, getPpn, getRdf);
      var shown := BookInfos.OnSearch(isbn, getPpn, getRdf);
      && (out.Raised? <==> shown.Raised?)
      && (out.Raised? ==> out.error == shown.error)
      && (out == Returned([NoPpnMessage]) <==> shown == Returned(NoPpnMessage))
      && (out.Returned? && |out.value| == 2 <==> shown == Returned(NoRecordMessage))
      && (out.Returned? && |out.value| == 5 <==>
            shown.Returned? && shown.value != NoPpnMessage && shown.value != NoRecordMessage)
    ensures var p := BookInfos.ResolvePpn(isbn, getPpn);
      p.Returned? && Truthy(p.value) && BookInfos.FetchRecord(p.value.value, getRdf).Some? ==>
        var rec := BookInfos.FetchRecord(p.value.value, getRdf).value;
        var out := ScriptOutput(isbn, getPpn, getRdf);
        && out.Returned? && |out.value| == 5 && out.value[1..] == RecordLines(rec)
        && BookInfos.OnSearch(isbn, getPpn, getRdf) == Returned(BookInfos.ResultText(rec))
  {
    ResolveAgrees(isbn, getPpn);
    var p := ResolvePpn(isbn, getPpn);
    if p.Returned? && Truthy(p.value) {
      FetchAgrees(p.value.value, getRdf);
    }
  }

  /** When the resolver answers with a status other than 200, only the "no PPN" line is printed. */
  lemma ScriptResolverNotFound(isbn: string, getPpn: string -> Transport<PpnDoc>, getRdf: string -> Transport<RdfDoc>)
    requires getPpn(IsbnUrl(isbn)).Response? && getPpn(IsbnUrl(isbn)).status != 200
    ensures ScriptOutput(isbn, getPpn, getRdf) == Returned([NoPpnMessage])
  {
  }

  /** Without a truthy PPN the record service is never consulted. */
  lemma ScriptWithoutPpnSkipsRecord(isbn: string, getPpn: string -> Transport<PpnDoc>,
                                    getRdf: string -> Transport<RdfDoc>, other: string -> Transport<RdfDoc>)
    requires ResolvePpn(isbn, getPpn).Returned? && !Truthy(ResolvePpn(isbn, getPpn).value)
    ensures ScriptOutput(isbn, getPpn, getRdf) == ScriptOutput(isbn, getPpn, other)
  {
  }
}
