/**
  The global `quotes` list of the page and the operations that change it:
  `addQuote`, `removeQuote`, the merge of `syncQuotes`, and the two JSON imports.
  `saveQuotes` is modelled by copying the list into the ghost field `persisted`.
 */
module Store {
  import opened Text
  import opened Quotes
  import opened ServerMerge
  import opened JsonImport

  /** What `fetchQuotesFromServer` resolved to. */
  datatype Remote = NotAnArray | Items(items: seq<Quote>)

  /**
    `(input && input.value) ? input.value.trim() : ''` for a form field;
    `None` stands for a field missing from the page.
   */
  function FieldValue(field: Option<string>): (r: string)
    ensures r == [] <==> field.None? || forall k :: 0 <= k < |field.value| ==> IsWhitespace(field.value[k])
    ensures r != [] ==> r == Trim(field.value) && !IsWhitespace(r[0]) && !IsWhitespace(r[|r| - 1])
  {
    if field.Some? && field.value != "" then Trim(field.value) else ""
  }

  class QuoteStore {
    var quotes: seq<Quote>
    /** The last list written to the `"quotes"` storage slot, if any. */
    ghost var persisted: Option<seq<Quote>>

    /** Start-up: the stored list if there is one, else the built-in seed. */
    constructor (stored: Option<seq<Quote>>)
      ensures quotes == (if stored.Some? then stored.value else Seed())
      ensures persisted == stored
    {
      quotes := if stored.Some? then stored.value else Seed();
      persisted := stored;
    }

    /** `saveQuotes`. */
    method Save()
      modifies this
      ensures quotes == old(quotes)
      ensures persisted == Some(quotes)
    {
      persisted := Some(quotes);
    }

    /**
      `addQuote`: rejected, with nothing changed, when either trimmed field is
      empty; otherwise appends one record with the trimmed fields and `freshId`.
     */
    method Add(textField: Option<string>, categoryField: Option<string>, freshId: int) returns (ok: bool)
      modifies this
      ensures ok == (FieldValue(textField) != "" && FieldValue(categoryField) != "")
      ensures ok ==> quotes == old(quotes) + [Quote(freshId, FieldValue(textField), FieldValue(categoryField))]
      ensures ok ==> persisted == Some(quotes)
      ensures !ok ==> quotes == old(quotes) && persisted == old(persisted)
    {
      var newText := FieldValue(textField);
      var newCategory := FieldValue(categoryField);
      if newText == "" || newCategory == "" {
        return false;
      }
      quotes := quotes + [Quote(freshId, newText, newCategory)];
      Save();
      ok := true;
    }

    /** `removeQuote`: keeps every record whose id differs, then saves. */
    method Remove(id: int)
      modifies this
      ensures quotes == RemoveById(old(quotes), id)
      ensures persisted == Some(quotes)
    {
      quotes := RemoveById(quotes, id);
      Save();
    }

    /**
      `syncQuotes` after the fetch: an empty or non-array answer changes nothing
      and saves nothing; otherwise the server-wins merge replaces the list, which
      is saved, and the status reports conflicts, an update or no change.
     */
    method Sync(remote: Remote) returns (status: SyncStatus)
      modifies this
      ensures remote.NotAnArray? || remote.items == [] ==>
        quotes == old(quotes) && persisted == old(persisted) && status == NoData
      ensures remote.Items? && remote.items != [] ==>
        && quotes == Merge(old(quotes), remote.items).merged
        && persisted == Some(quotes)
        && status == Report(Merge(old(quotes), remote.items))
    {
      if remote.NotAnArray? || |remote.items| == 0 {
        return NoData;
      }
      var serverQuotes := remote.items;
      var conflicts := 0;
      var updated := false;
      var merged := quotes;
      var n := 0;
      while n < |serverQuotes|
        invariant 0 <= n <= |serverQuotes|
        invariant quotes == old(quotes)
        invariant MergeState(merged, conflicts, updated) == Merge(old(quotes), serverQuotes[..n])
      {
        var sq := serverQuotes[n];
        var localIndex := FindIndex(merged, sq.id);
        if localIndex == -1 {
          merged := merged + [sq];
          updated := true;
        } else if merged[localIndex].text != sq.text {
          merged := merged[localIndex := sq];
          conflicts := conflicts + 1;
          updated := true;
        }
        assert serverQuotes[..n + 1][..n] == serverQuotes[..n];
        n := n + 1;
      }
      assert serverQuotes[..n] == serverQuotes;
      quotes := merged;
      Save();
      status := Report(MergeState(merged, conflicts, updated));
    }

    /** The `forEach` of an import: each valid entry, given an id if it has none, is pushed. */
    method AppendEntries(valid: seq<Entry>, freshIds: seq<int>)
      requires forall k :: 0 <= k < |valid| ==> IsValid(valid[k])
      requires |valid| <= |freshIds|
      modifies this
      ensures quotes == old(quotes) + Normalize(valid, freshIds)
      ensures persisted == old(persisted)
    {
      var k := 0;
      while k < |valid|
        invariant 0 <= k <= |valid|
        invariant quotes == old(quotes) + Normalize(valid, freshIds)[..k]
        invariant persisted == old(persisted)
      {
        quotes := quotes + [ToQuote(valid[k], freshIds[k])];
        k := k + 1;
      }
      assert Normalize(valid, freshIds)[..k] == Normalize(valid, freshIds);
    }

    /**
      The import that runs (`_importFromJsonFile_impl`): no file, a parse error
      or a non-array changes nothing; otherwise the valid entries are appended in
      file order, even when there are none, and the list is saved.
     */
    method Import(file: ImportFile, freshIds: seq<int>) returns (outcome: ImportOutcome)
      requires file.JsonArray? ==> |ValidEntries(file.entries)| <= |freshIds|
      modifies this
      ensures !file.JsonArray? ==> quotes == old(quotes) && persisted == old(persisted)
      ensures file.NoFile? ==> outcome == NoFileSelected
      ensures file.Unparsable? ==> outcome == ParseError
      ensures file.NotArray? ==> outcome == InvalidFormat
      ensures file.JsonArray? ==>
        && quotes == old(quotes) + Normalize(ValidEntries(file.entries), freshIds)
        && persisted == Some(quotes)
        && outcome == ImportedAll(|ValidEntries(file.entries)|)
    {
      match file
      case NoFile => outcome := NoFileSelected;
      case Unparsable => outcome := ParseError;
      case NotArray => outcome := InvalidFormat;
      case JsonArray(entries) =>
        var valid := ValidEntries(entries);
        AppendEntries(valid, freshIds);
        Save();
        outcome := ImportedAll(|valid|);
    }

    /**
      The earlier `importFromJsonFile`: the same, except that a file with no
      valid entry is rejected with nothing changed.
     */
    method ImportRequiringValid(file: ImportFile, freshIds: seq<int>) returns (outcome: ImportOutcome)
      requires file.JsonArray? ==> |ValidEntries(file.entries)| <= |freshIds|
      modifies this
      ensures !file.JsonArray? || ValidEntries(file.entries) == [] ==>
        quotes == old(quotes) && persisted == old(persisted)
      ensures file.NoFile? ==> outcome == NoFileSelected
      ensures file.Unparsable? ==> outcome == ParseError
      ensures file.NotArray? ==> outcome == InvalidFormat
      ensures file.JsonArray? && ValidEntries(file.entries) == [] ==> outcome == NoValidQuotes
      ensures file.JsonArray? && ValidEntries(file.entries) != [] ==>
        && quotes == old(quotes) + Normalize(ValidEntries(file.entries), freshIds)
        && persisted == Some(quotes)
        && outcome == ImportedAll(|ValidEntries(file.entries)|)
    {
      match file
      case NoFile => outcome := NoFileSelected;
      case Unparsable => outcome := ParseError;
      case NotArray => outcome := InvalidFormat;
      case JsonArray(entries) =>
        var valid := ValidEntries(entries);
        if |valid| == 0 {
          return NoValidQuotes;
        }
        AppendEntries(valid, freshIds);
        Save();
        outcome := ImportedAll(|valid|);
    }
  }

  /** A caller's view: adding a quote under an unused id and removing that id restores the list. */
  method AddThenRemove(s: QuoteStore, text: string, category: string, freshId: int)
    requires freshId !in IdsOf(s.quotes)
    modifies s
    ensures s.quotes == old(s.quotes)
  {
    var ok := s.Add(Some(text), Some(category), freshId);
    s.Remove(freshId);
    if ok {
      RemoveUndoesAppend(old(s.quotes), Quote(freshId, FieldValue(Some(text)), FieldValue(Some(category))));
    } else {
      RemoveAbsent(old(s.quotes), freshId);
    }
  }
}
