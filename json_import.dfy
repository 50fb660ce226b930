/**
  The JSON side of the store: the parsed entries of an imported file, the
  validity test and id normalisation applied to them, and the JSON view of an
  exported list.
 */
module JsonImport {
  import opened Quotes
  import opened Seqs

  /**
    One element of a parsed JSON array. `text` and `category` are `Some` exactly
    when the field holds a string; `id` is `Some(n)` for a numeric id and `None`
    when it is missing or a falsy non-number (`null`, `false`, `""`).
    `NotObject` covers `null`, numbers, strings, booleans and arrays.
   */
  datatype Entry = NotObject | Object(id: Option<int>, text: Option<string>, category: Option<string>)

  /** What reading and parsing the selected file gave. */
  datatype ImportFile = NoFile | Unparsable | NotArray | JsonArray(entries: seq<Entry>)

  /** The alert an import ends with. */
  datatype ImportOutcome = NoFileSelected | ParseError | InvalidFormat | NoValidQuotes | ImportedAll(count: nat)

  /** `it && typeof it.text === 'string' && typeof it.category === 'string'`. */
  predicate IsValid(e: Entry) {
    e.Object? && e.text.Some? && e.category.Some?
  }

  /** `it.id` is truthy: a number other than 0. */
  predicate HasTruthyId(e: Entry) {
    e.Object? && e.id.Some? && e.id.value != 0
  }

  /** `imported.filter(...)`: the valid entries, in file order. */
  function ValidEntries(es: seq<Entry>): (v: seq<Entry>)
    ensures |v| <= |es|
    ensures forall k :: 0 <= k < |v| ==> IsValid(v[k])
    ensures forall e :: e in v <==> e in es && IsValid(e)
    ensures forall e :: multiset(v)[e] == if IsValid(e) then multiset(es)[e] else 0
  {
    Filter(es, IsValid)
  }

  /** The record pushed for a valid entry: its own id if truthy, else `freshId`. */
  function ToQuote(e: Entry, freshId: int): Quote
    requires IsValid(e)
  {
    Quote(if HasTruthyId(e) then e.id.value else freshId, e.text.value, e.category.value)
  }

  /** The records the import loop pushes; the k-th valid entry draws `freshIds[k]` when it needs an id. */
  function Normalize(valid: seq<Entry>, freshIds: seq<int>): (r: seq<Quote>)
    requires forall k :: 0 <= k < |valid| ==> IsValid(valid[k])
    requires |valid| <= |freshIds|
    ensures |r| == |valid|
    ensures forall k :: 0 <= k < |valid| ==>
      && IsValid(valid[k])
      && r[k].text == valid[k].text.value
      && r[k].category == valid[k].category.value
      && r[k].id == (if HasTruthyId(valid[k]) then valid[k].id.value else freshIds[k])
  {
    seq(|valid|, k requires 0 <= k < |valid| => ToQuote(valid[k], freshIds[k]))
  }

  /**
    The JSON view of a list, as `JSON.stringify` writes it for export: every
    exported entry passes the import's validity test, and its id counts as
    present exactly when the record's id is not 0.
   */
  function Export(qs: seq<Quote>): (es: seq<Entry>)
    ensures |es| == |qs|
    ensures forall k :: 0 <= k < |qs| ==> es[k] == Object(Some(qs[k].id), Some(qs[k].text), Some(qs[k].category))
    ensures ValidEntries(es) == es
    ensures forall k :: 0 <= k < |qs| ==> (HasTruthyId(es[k]) <==> qs[k].id != 0)
  {
    var es := seq(|qs|, k requires 0 <= k < |qs| => Object(Some(qs[k].id), Some(qs[k].text), Some(qs[k].category)));
    FilterKeepsAll(es, IsValid);
    es
  }

  /** Validation keeps every entry when all are valid. */
  lemma ValidEntriesAll(es: seq<Entry>)
    requires forall k :: 0 <= k < |es| ==> IsValid(es[k])
    ensures ValidEntries(es) == es
  {
    FilterKeepsAll(es, IsValid);
  }

  /** Validation keeps the valid entries in file order. */
  lemma ValidEntriesKeepOrder(es: seq<Entry>)
    ensures IsSubsequence(ValidEntries(es), es)
  {
    FilterIsSubsequence(es, IsValid);
  }

  /**
    Export then import: every record comes back in order with its text and
    category; its id comes back unless it was 0, which is falsy and so replaced.
   */
  lemma ExportImportRoundTrip(qs: seq<Quote>, freshIds: seq<int>)
    requires |qs| <= |freshIds|
    ensures |ValidEntries(Export(qs))| == |qs|
    ensures var r := Normalize(ValidEntries(Export(qs)), freshIds);
      && |r| == |qs|
      && forall k :: 0 <= k < |qs| ==>
           && r[k].text == qs[k].text && r[k].category == qs[k].category
           && r[k].id == (if qs[k].id != 0 then qs[k].id else freshIds[k])
  {
    ValidEntriesAll(Export(qs));
  }

  /** With no zero id, importing an export gives back exactly the exported list. */
  lemma ExportImportIdentity(qs: seq<Quote>, freshIds: seq<int>)
    requires |qs| <= |freshIds|
    requires forall k :: 0 <= k < |qs| ==> qs[k].id != 0
    ensures Normalize(ValidEntries(Export(qs)), freshIds) == qs
  {
    ExportImportRoundTrip(qs, freshIds);
  }

  /**
    Importing the export of an import gives back the imported records, whatever
    ids the second import has at hand, as long as the first drew non-zero ids.
   */
  lemma ReimportIsStable(valid: seq<Entry>, freshIds: seq<int>, laterIds: seq<int>)
    requires forall k :: 0 <= k < |valid| ==> IsValid(valid[k])
    requires |valid| <= |freshIds| && |valid| <= |laterIds|
    requires forall k :: 0 <= k < |freshIds| ==> freshIds[k] != 0
    ensures Normalize(ValidEntries(Export(Normalize(valid, freshIds))), laterIds) == Normalize(valid, freshIds)
  {
    var r := Normalize(valid, freshIds);
    assert forall k :: 0 <= k < |r| ==> r[k].id != 0;
    ExportImportIdentity(r, laterIds);
  }
}
