/** The bot's in-memory resolution collection and the commands that change
    it: reload from the backing file and create a new resolution. Reading
    and writing the file are outside the model: a reload receives the parse
    result, and a create receives whether the write succeeded. */
module Store {
  import opened Wrappers
  import opened Resolutions

  /** What the create command reports. */
  datatype CreateOutcome =
    | Created        // appended and written
    | AlreadyExists  // the case number was taken; nothing changed
    | SaveFailed     // appended in memory, but the write failed

  class ResolutionStore {
    /** The collection in file order; `resolutions` in the bot. */
    var items: seq<Resolution>

    /** The collection as parsed from the file at start-up. */
    constructor (loaded: seq<Resolution>)
      ensures items == loaded
    {
      items := loaded;
    }

    /** `get_resolution(key)`. */
    method Get(key: string) returns (r: Option<Resolution>)
      ensures r == FindCase(items, key)
    {
      r := FindCase(items, key);
    }

    /** `list_latest(limit)`; leaves the collection as it is. */
    method ListLatest(limit: nat) returns (r: seq<Resolution>)
      ensures r == Latest(items, limit)
    {
      r := Latest(items, limit);
    }

    /** The reload command: a successful parse replaces the whole collection;
        a failed one (missing, unreadable or malformed file) leaves it as it
        was. */
    method Reload(parsed: Option<seq<Resolution>>) returns (ok: bool)
      modifies this
      ensures ok <==> parsed.Some?
      ensures ok ==> items == parsed.value
      ensures !ok ==> items == old(items)
    {
      match parsed
      case Some(loaded) =>
        items := loaded;
        ok := true;
      case None =>
        ok := false;
    }

    /** The create command. A case number already present is refused and
        nothing changes. Otherwise the new record is appended and the whole
        collection is handed to the write (`written`); the append stays even
        when `saveSucceeds` is false. */
    method Create(caseNumber: string, title: string, preamble: string, kind: string,
                  submittedBy: string, date: string, signatories: string,
                  clauses: string, conclusion: string, saveSucceeds: bool)
      returns (outcome: CreateOutcome, written: Option<seq<Resolution>>)
      modifies this
      ensures FindCase(old(items), caseNumber).Some? ==>
                outcome == AlreadyExists && items == old(items) && written == None
      ensures FindCase(old(items), caseNumber).None? ==>
                items == old(items) + [NewRecord(caseNumber, title, preamble, kind, submittedBy,
                                                 date, signatories, clauses, conclusion)]
                && written == Some(items)
                && outcome == (if saveSucceeds then Created else SaveFailed)
    {
      var existing := FindCase(items, caseNumber);
      if existing.Some? {
        return AlreadyExists, None;
      }
      var rec := NewRecord(caseNumber, title, preamble, kind, submittedBy, date,
                           signatories, clauses, conclusion);
      items := items + [rec];
      written := Some(items);
      outcome := if saveSucceeds then Created else SaveFailed;
    }
  }
}
