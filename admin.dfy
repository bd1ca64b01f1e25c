/**
 * The admin page's form controller (src/pages/Admin.tsx): one form used for both
 * creating and editing a location, the submit rule that validates and normalises it
 * into a store payload, and the bulk import of a parsed file.
 *
 * The store is represented by the calls the page issues to it, and the toast
 * notifications by a log; whether the store accepts a call is a parameter.
 */
module Admin {

  import opened Options
  import opened JsText
  import opened LocationTypes

  /** `LocationFormData`: the fields of the create/edit form. */
  datatype FormData = FormData(
    name: string,
    lat: real,
    lng: real,
    category: Category,
    description: string,
    photoUrl: string)

  /** `defaultFormData`: an empty form centred on the campus, category academic. */
  const DefaultFormData := FormData("", CampusCenter.lat, CampusCenter.lng, Academic, "", "")

  /** The fields sent to the store's insert or update; the category travels as its string. */
  datatype Payload = Payload(
    name: string,
    lat: real,
    lng: real,
    category: string,
    description: Option<string>,
    photoUrl: Option<string>)

  /** A mutation the page asks of the store. */
  datatype StoreCall = Create(payload: Payload) | Update(id: string, payload: Payload) | Delete(id: string)

  /** The toasts the page and its mutation hooks raise. */
  datatype Notice =
    | NameRequired
    | LocationAdded | AddFailed
    | LocationUpdated | UpdateFailed
    | LocationDeleted | DeleteFailed
    | ImportFailed | Imported(count: nat)

  /** A payload in the shape the form produces: trimmed strings and no empty optional field. */
  predicate Normalised(p: Payload) {
    && p.name != [] && IsTrimmed(p.name)
    && (p.description.Some? ==> p.description.value != [] && IsTrimmed(p.description.value))
    && (p.photoUrl.Some? ==> p.photoUrl.value != [] && IsTrimmed(p.photoUrl.value))
  }

  /**
   * The payload built from the form on submit: the name trimmed, coordinates and
   * category passed through, and each optional text trimmed, with nothing left
   * meaning absent.
   */
  function SubmitPayload(f: FormData): (p: Payload)
    ensures !AllWhitespace(f.name) ==> Normalised(p)
    ensures p.name == Trim(f.name)
    ensures p.lat == f.lat && p.lng == f.lng && p.category == Key(f.category)
    ensures p.description.None? <==> AllWhitespace(f.description)
    ensures p.description.Some? ==> p.description.value == Trim(f.description)
    ensures p.photoUrl.None? <==> AllWhitespace(f.photoUrl)
    ensures p.photoUrl.Some? ==> p.photoUrl.value == Trim(f.photoUrl)
  {
    Payload(Trim(f.name), f.lat, f.lng, Key(f.category), OrNull(Trim(f.description)), OrNull(Trim(f.photoUrl)))
  }

  /** `if (editingId)`: a present, non-empty id means update; anything else means create. */
  function SubmitCall(editingId: Option<string>, p: Payload): (c: StoreCall)
    ensures !c.Delete? && c.payload == p
    ensures c.Update? <==> editingId.Some? && editingId.value != []
    ensures c.Update? ==> c.id == editingId.value
  {
    if editingId.Some? && editingId.value != [] then Update(editingId.value, p) else Create(p)
  }

  /** The toast the mutation hook raises once the store has answered a call. */
  function Outcome(c: StoreCall, accepted: bool): Notice {
    match c
    case Create(_) => if accepted then LocationAdded else AddFailed
    case Update(_, _) => if accepted then LocationUpdated else UpdateFailed
    case Delete(_) => if accepted then LocationDeleted else DeleteFailed
  }

  /** The form a location is loaded into for editing; an absent text becomes ''. */
  function EditForm(loc: Location): FormData {
    FormData(loc.name, loc.lat, loc.lng, loc.category, OrEmpty(loc.description), OrEmpty(loc.photoUrl))
  }

  /** The fields of a stored location, as a payload. */
  function PayloadOf(loc: Location): Payload {
    Payload(loc.name, loc.lat, loc.lng, Key(loc.category), loc.description, loc.photoUrl)
  }

  /** A location whose texts are already in the shape the form produces. */
  predicate TidyLocation(loc: Location) {
    Normalised(PayloadOf(loc))
  }

  /** Editing a tidy location and submitting at once passes validation and sends back its own fields. */
  lemma EditSubmitRoundTrip(loc: Location)
    requires TidyLocation(loc)
    ensures !AllWhitespace(EditForm(loc).name)
    ensures SubmitPayload(EditForm(loc)) == PayloadOf(loc)
  {
    var f := EditForm(loc);
    TrimOfTrimmed(f.name);
    OptionalTextRoundTrip(loc.description);
    OptionalTextRoundTrip(loc.photoUrl);
    var p := SubmitPayload(f);
    assert p.name == loc.name;
    assert p.description == loc.description;
    assert p.photoUrl == loc.photoUrl;
  }

  /** A present optional text that is non-empty and trimmed survives `|| ''`, `trim` and `|| null`. */
  lemma OptionalTextRoundTrip(o: Option<string>)
    requires o.Some? ==> o.value != [] && IsTrimmed(o.value)
    ensures OrNull(Trim(OrEmpty(o))) == o
  {
    TrimOfTrimmed(OrEmpty(o));
  }

  /** A submitted payload is a fixed point: loading it back into the form and submitting again changes nothing. */
  lemma SubmitIdempotent(f: FormData)
    requires !AllWhitespace(f.name)
    ensures var p := SubmitPayload(f);
      SubmitPayload(FormData(p.name, p.lat, p.lng, f.category, OrEmpty(p.description), OrEmpty(p.photoUrl))) == p
  {
    var p := SubmitPayload(f);
    var f' := FormData(p.name, p.lat, p.lng, f.category, OrEmpty(p.description), OrEmpty(p.photoUrl));
    TrimIdempotent(f.name);
    OptionalTextStable(f.description);
    OptionalTextStable(f.photoUrl);
    var p' := SubmitPayload(f');
    assert p'.name == p.name;
    assert p'.description == p.description;
    assert p'.photoUrl == p.photoUrl;
  }

  /** An optional text that went through the form once comes out of it unchanged. */
  lemma OptionalTextStable(s: string)
    ensures OrNull(Trim(OrEmpty(OrNull(Trim(s))))) == OrNull(Trim(s))
  {
    var t := Trim(s);
    if t == [] {
      assert OrEmpty(OrNull(t)) == [];
      assert |Trim([])| == 0;
    } else {
      assert OrEmpty(OrNull(t)) == t;
      TrimIdempotent(s);
    }
  }

  // ---- Import ----------------------------------------------------------------

  /**
   * One element of an imported array: `null`, or a value whose fields are read; a field
   * the element lacks is None (so a number, string or array element has every field None).
   */
  datatype Entry =
    | Null
    | Object(
    name: Option<string>,
    lat: Option<real>,
    lng: Option<real>,
    category: Option<string>,
    description: Option<string>,
    photoUrl: Option<string>)

  /**
   * What the chosen file turned out to be: no file at all, text that did not parse
   * or whose top-level value is not an array, or an array of entries.
   */
  datatype ImportFile = NoFile | Unparsable | Records(entries: seq<Entry>)

  /** `loc.name && loc.lat && loc.lng && loc.category`: all four present and truthy (so a 0 coordinate fails). */
  predicate Importable(e: Entry) {
    && e.Object?
    && e.name.Some? && e.name.value != []
    && e.lat.Some? && e.lat.value != 0.0
    && e.lng.Some? && e.lng.value != 0.0
    && e.category.Some? && e.category.value != []
  }

  /** The create payload for an importable entry: fields copied as they are, falsy texts dropped. */
  function ImportPayload(e: Entry): Payload
    requires Importable(e)
  {
    Payload(e.name.value, e.lat.value, e.lng.value, e.category.value, TruthyOrNull(e.description), TruthyOrNull(e.photoUrl))
  }

  /** The payloads an import creates when the store accepts every one, in input order. */
  function Accepted(es: seq<Entry>): seq<Payload>
    decreases |es|
  {
    if es == [] then []
    else
      var e := es[|es| - 1];
      Accepted(es[..|es| - 1]) + (if Importable(e) then [ImportPayload(e)] else [])
  }

  /** A single entry yields its payload if importable and nothing otherwise. */
  lemma AcceptedSingle(e: Entry)
    ensures Accepted([e]) == if Importable(e) then [ImportPayload(e)] else []
  {
    assert [e][..0] == [];
  }

  /** Importing two lists one after the other is importing their concatenation: entries are handled in order, independently. */
  lemma {:induction false} AcceptedAppend(s: seq<Entry>, t: seq<Entry>)
    ensures Accepted(s + t) == Accepted(s) + Accepted(t)
    decreases |t|
  {
    if t == [] {
      assert s + t == s;
    } else {
      var t' := t[..|t| - 1];
      AcceptedAppend(s, t');
      assert (s + t)[..|s + t| - 1] == s + t';
    }
  }

  /** An entry with a zero latitude or longitude is skipped, whatever surrounds it. */
  lemma ZeroCoordinateSkipped(s: seq<Entry>, e: Entry, t: seq<Entry>)
    requires e.Object? && (e.lat == Some(0.0) || e.lng == Some(0.0))
    ensures Accepted(s + [e] + t) == Accepted(s) + Accepted(t)
  {
    AcceptedAppend(s + [e], t);
    AcceptedAppend(s, [e]);
    AcceptedSingle(e);
  }

  /** A list of importable entries is created in full, entry by entry. */
  lemma {:induction false} AcceptedAllImportable(es: seq<Entry>)
    requires forall i :: 0 <= i < |es| ==> Importable(es[i])
    ensures |Accepted(es)| == |es|
    ensures forall i :: 0 <= i < |es| ==> Accepted(es)[i] == ImportPayload(es[i])
    decreases |es|
  {
    if es != [] {
      AcceptedAllImportable(es[..|es| - 1]);
    }
  }

  /** The success toast counts entries, not creates: one skipped entry makes it report more than was created. */
  lemma ReportedCountOvercounts(es: seq<Entry>, k: nat)
    requires k < |es| && !Importable(es[k])
    ensures |Accepted(es)| < |es|
  {
    assert es == es[..k] + [es[k]] + es[k + 1..];
    AcceptedAppend(es[..k] + [es[k]], es[k + 1..]);
    AcceptedAppend(es[..k], [es[k]]);
    AcceptedSingle(es[k]);
    AcceptedLength(es[..k]);
    AcceptedLength(es[k + 1..]);
  }

  lemma {:induction false} AcceptedLength(es: seq<Entry>)
    ensures |Accepted(es)| <= |es|
    decreases |es|
  {
    if es != [] {
      AcceptedLength(es[..|es| - 1]);
    }
  }

  /** `handleExport` writes every field of every location; import reads back these six. */
  function ExportEntry(loc: Location): (e: Entry)
    ensures Importable(e) <==> loc.name != [] && loc.lat != 0.0 && loc.lng != 0.0
  {
    Object(Some(loc.name), Some(loc.lat), Some(loc.lng), Some(Key(loc.category)), loc.description, loc.photoUrl)
  }

  /** Re-importing an export recreates each location with its own fields, when no field is falsy. */
  lemma ExportImportRoundTrip(locs: seq<Location>)
    requires forall i :: 0 <= i < |locs| ==>
      && locs[i].name != [] && locs[i].lat != 0.0 && locs[i].lng != 0.0
      && locs[i].description != Some([]) && locs[i].photoUrl != Some([])
    ensures var es := seq(|locs|, i requires 0 <= i < |locs| => ExportEntry(locs[i]));
      |Accepted(es)| == |locs| && forall i :: 0 <= i < |locs| ==> Accepted(es)[i] == PayloadOf(locs[i])
  {
    var es := seq(|locs|, i requires 0 <= i < |locs| => ExportEntry(locs[i]));
    forall i | 0 <= i < |es| ensures Importable(es[i]) {
      assert es[i] == ExportEntry(locs[i]);
    }
    AcceptedAllImportable(es);
  }

  /**
   * The index of the first `null` element, or the length when there is none. Reading a
   * field of `null` throws, so the loop never gets past this index.
   */
  function FirstNull(es: seq<Entry>): (k: nat)
    ensures k <= |es|
    ensures forall j :: 0 <= j < k ==> es[j].Object?
    ensures k < |es| ==> es[k].Null?
  {
    if es == [] || es[0].Null? then 0
    else
      var k := 1 + FirstNull(es[1..]);
      assert forall j :: 1 <= j < k ==> es[j] == es[1..][j - 1];
      k
  }

  /** The elements the import loop reaches: those before the first `null`. */
  function Reached(es: seq<Entry>): seq<Entry> {
    es[..FirstNull(es)]
  }

  /** The creates an import issues when the store rejects the create numbered `failAt` (from 0), if any. */
  function IssuedCreates(es: seq<Entry>, failAt: Option<nat>): seq<Payload> {
    var all := Accepted(Reached(es));
    if failAt.Some? && failAt.value < |all| then all[..failAt.value + 1] else all
  }

  function Creates(ps: seq<Payload>): seq<StoreCall> {
    seq(|ps|, i requires 0 <= i < |ps| => Create(ps[i]))
  }

  function Repeat(n: Notice, k: nat): seq<Notice> {
    seq(k, _ => n)
  }

  /** The calls an import issues. */
  function ImportCalls(file: ImportFile, failAt: Option<nat>): seq<StoreCall> {
    match file
    case Records(es) => Creates(IssuedCreates(es, failAt))
    case _ => []
  }

  /** The toasts an import raises. */
  function ImportNotices(file: ImportFile, failAt: Option<nat>): seq<Notice> {
    match file
    case NoFile => []
    case Unparsable => [ImportFailed]
    case Records(es) =>
      var all := Accepted(Reached(es));
      if failAt.Some? && failAt.value < |all| then Repeat(LocationAdded, failAt.value) + [AddFailed, ImportFailed]
      else if FirstNull(es) < |es| then Repeat(LocationAdded, |all|) + [ImportFailed]
      else Repeat(LocationAdded, |all|) + [Imported(|es|)]
  }

  /** An unparsable file issues no call and raises exactly one error toast. */
  lemma UnparsableImport(failAt: Option<nat>)
    ensures ImportCalls(Unparsable, failAt) == []
    ensures ImportNotices(Unparsable, failAt) == [ImportFailed]
  {
  }

  /**
   * With no rejection and no `null` element, an import issues one create per importable
   * entry, in order, and ends with a success toast counting every entry.
   */
  lemma ImportAllAccepted(es: seq<Entry>)
    requires forall i :: 0 <= i < |es| ==> es[i].Object?
    ensures ImportCalls(Records(es), None) == Creates(Accepted(es))
    ensures ImportNotices(Records(es), None) == Repeat(LocationAdded, |Accepted(es)|) + [Imported(|es|)]
  {
    NullFreeReached(es);
  }

  /** Without a `null` element the loop reaches every element. */
  lemma NullFreeReached(es: seq<Entry>)
    requires forall i :: 0 <= i < |es| ==> es[i].Object?
    ensures FirstNull(es) == |es| && Reached(es) == es
  {
  }

  /**
   * A `null` element ends the import with the import error toast: the entries before it
   * are created as usual, nothing after it is sent, and no success toast follows.
   */
  lemma NullAbortsImport(s: seq<Entry>, t: seq<Entry>)
    requires forall i :: 0 <= i < |s| ==> s[i].Object?
    ensures ImportCalls(Records(s + [Null] + t), None) == Creates(Accepted(s))
    ensures ImportNotices(Records(s + [Null] + t), None) == Repeat(LocationAdded, |Accepted(s)|) + [ImportFailed]
  {
    var es := s + [Null] + t;
    var k := FirstNull(es);
    assert es[|s|].Null?;
    assert forall j :: 0 <= j < |s| ==> es[j] == s[j];
    assert k == |s|;
    assert Reached(es) == s;
  }

  /** A rejected create ends the import: later entries are not sent and no success toast follows. */
  lemma ImportStopsAtRejection(es: seq<Entry>, n: nat)
    requires n < |Accepted(Reached(es))|
    ensures |ImportCalls(Records(es), Some(n))| == n + 1
    ensures ImportNotices(Records(es), Some(n))[n..] == [AddFailed, ImportFailed]
  {
  }

  class AdminPage {
    var form: FormData
    /** `editingId`: the id of the location being edited, None when creating. */
    var editingId: Option<string>
    var dialogOpen: bool
    /** Every mutation issued to the store, oldest first. */
    ghost var calls: seq<StoreCall>
    /** Every toast raised, oldest first. */
    ghost var notices: seq<Notice>

    constructor ()
      ensures form == DefaultFormData && editingId == None && !dialogOpen
      ensures calls == [] && notices == []
    {
      form := DefaultFormData;
      editingId := None;
      dialogOpen := false;
      calls := [];
      notices := [];
    }

    /** "Add Location": an empty form in create mode, and the dialog opens. */
    method OpenAddDialog()
      modifies this
      ensures form == DefaultFormData && editingId == None && dialogOpen
      ensures calls == old(calls) && notices == old(notices)
    {
      form := DefaultFormData;
      editingId := None;
      dialogOpen := true;
    }

    /** A click on the admin map: the clicked coordinates go into the form and the dialog opens. */
    method HandleMapClick(lat: real, lng: real)
      modifies this
      ensures form == old(form).(lat := lat, lng := lng)
      ensures dialogOpen
      ensures editingId == old(editingId) && calls == old(calls) && notices == old(notices)
    {
      form := form.(lat := lat, lng := lng);
      dialogOpen := true;
    }

    /** `handleEdit`: the location is loaded into the form in edit mode and the dialog opens. */
    method HandleEdit(loc: Location)
      modifies this
      ensures form == EditForm(loc) && editingId == Some(loc.id) && dialogOpen
      ensures calls == old(calls) && notices == old(notices)
    {
      form := EditForm(loc);
      editingId := Some(loc.id);
      dialogOpen := true;
    }

    /**
     * `handleSubmit`. A name that is empty or all whitespace raises a toast and changes
     * nothing else. Otherwise exactly one create or update is issued; only if the store
     * accepts it is the form reset, edit mode left and the dialog closed.
     */
    method HandleSubmit(accepted: bool)
      modifies this
      ensures AllWhitespace(old(form).name) ==>
        && form == old(form) && editingId == old(editingId) && dialogOpen == old(dialogOpen)
        && calls == old(calls) && notices == old(notices) + [NameRequired]
      ensures !AllWhitespace(old(form).name) ==>
        var call := SubmitCall(old(editingId), SubmitPayload(old(form)));
        && calls == old(calls) + [call]
        && notices == old(notices) + [Outcome(call, accepted)]
        && (accepted ==> form == DefaultFormData && editingId == None && !dialogOpen)
        && (!accepted ==> form == old(form) && editingId == old(editingId) && dialogOpen == old(dialogOpen))
    {
      if Trim(form.name) == [] {
        notices := notices + [NameRequired];
        return;
      }
      Dispatch(accepted);
    }

    /** The part of `handleSubmit` after validation: the one mutation, then the reset once it succeeds. */
    method Dispatch(accepted: bool)
      modifies this
      ensures var call := SubmitCall(old(editingId), SubmitPayload(old(form)));
        && calls == old(calls) + [call]
        && notices == old(notices) + [Outcome(call, accepted)]
        && (accepted ==> form == DefaultFormData && editingId == None && !dialogOpen)
        && (!accepted ==> form == old(form) && editingId == old(editingId) && dialogOpen == old(dialogOpen))
    {
      var call := SubmitCall(editingId, SubmitPayload(form));
      calls := calls + [call];
      notices := notices + [Outcome(call, accepted)];
      if !accepted {
        return;
      }
      form := DefaultFormData;
      editingId := None;
      dialogOpen := false;
    }

    /** `handleDelete`: one delete call; the form is not involved. */
    method HandleDelete(id: string, accepted: bool)
      modifies this
      ensures calls == old(calls) + [Delete(id)]
      ensures notices == old(notices) + [Outcome(Delete(id), accepted)]
      ensures form == old(form) && editingId == old(editingId) && dialogOpen == old(dialogOpen)
    {
      calls := calls + [Delete(id)];
      notices := notices + [Outcome(Delete(id), accepted)];
    }

    /**
     * `handleImport`: for an array, one create per importable entry, each awaited
     * before the next; a rejected create aborts the rest with the import error toast.
     */
    method HandleImport(file: ImportFile, failAt: Option<nat>)
      modifies this`calls, this`notices
      ensures calls == old(calls) + ImportCalls(file, failAt)
      ensures notices == old(notices) + ImportNotices(file, failAt)
    {
      match file {
        case NoFile =>
        case Unparsable =>
          notices := notices + [ImportFailed];
        case Records(es) =>
          ImportRecords(es, failAt);
      }
    }

    /**
     * The loop of `handleImport` over a parsed array, awaiting each create before the next.
     * A `null` element throws on its first field read, and the import ends in the error toast.
     */
    method ImportRecords(es: seq<Entry>, failAt: Option<nat>)
      modifies this`calls, this`notices
      ensures calls == old(calls) + ImportCalls(Records(es), failAt)
      ensures notices == old(notices) + ImportNotices(Records(es), failAt)
    {
      var issued := 0;
      var i := 0;
      while i < |es|
        invariant 0 <= i <= |es| && i <= FirstNull(es)
        invariant issued == |Accepted(es[..i])|
        invariant failAt.None? || issued <= failAt.value
        invariant calls == old(calls) + Creates(Accepted(es[..i]))
        invariant notices == old(notices) + Repeat(LocationAdded, issued)
      {
        var e := es[i];
        if e.Null? {
          ExitOnNull(es, failAt, i);
          AppendNotices(old(notices), Repeat(LocationAdded, issued), [ImportFailed]);
          notices := notices + [ImportFailed];
          return;
        }
        EntryPassed(es, i);
        AcceptedStep(es, i);
        if Importable(e) {
          AppendCreate(old(calls), Accepted(es[..i]), ImportPayload(e));
          calls := calls + [Create(ImportPayload(e))];
          if failAt == Some(issued) {
            ExitOnRejection(es, i, issued);
            AppendNotices(old(notices), Repeat(LocationAdded, issued), [AddFailed, ImportFailed]);
            notices := notices + [AddFailed, ImportFailed];
            return;
          }
          RepeatAppend(old(notices), LocationAdded, issued);
          notices := notices + [LocationAdded];
          issued := issued + 1;
        }
        i := i + 1;
      }
      ExitAtEnd(es, failAt);
      AppendNotices(old(notices), Repeat(LocationAdded, issued), [Imported(|es|)]);
      notices := notices + [Imported(|es|)];
    }
  }

  /** What an import that meets a `null` element at `i`, with no create rejected before it, issues and raises. */
  lemma ExitOnNull(es: seq<Entry>, failAt: Option<nat>, i: nat)
    requires i < |es| && i <= FirstNull(es) && es[i].Null?
    requires failAt.None? || |Accepted(es[..i])| <= failAt.value
    ensures ImportCalls(Records(es), failAt) == Creates(Accepted(es[..i]))
    ensures ImportNotices(Records(es), failAt) == Repeat(LocationAdded, |Accepted(es[..i])|) + [ImportFailed]
  {
    NullReachedAt(es, i);
  }

  /** What an import whose create for entry `i`, numbered `n`, is rejected issues and raises. */
  lemma ExitOnRejection(es: seq<Entry>, i: nat, n: nat)
    requires i < FirstNull(es) && Importable(es[i]) && n == |Accepted(es[..i])|
    ensures ImportCalls(Records(es), Some(n)) == Creates(Accepted(es[..i + 1]))
    ensures ImportNotices(Records(es), Some(n)) == Repeat(LocationAdded, n) + [AddFailed, ImportFailed]
  {
    RejectedCreate(es, i, n);
  }

  /** What an import that runs to the end, with no create rejected, issues and raises. */
  lemma ExitAtEnd(es: seq<Entry>, failAt: Option<nat>)
    requires |es| <= FirstNull(es)
    requires failAt.None? || |Accepted(es[..|es|])| <= failAt.value
    ensures ImportCalls(Records(es), failAt) == Creates(Accepted(es[..|es|]))
    ensures ImportNotices(Records(es), failAt) == Repeat(LocationAdded, |Accepted(es[..|es|])|) + [Imported(|es|)]
  {
    NullFreeEnd(es);
  }

  /** One more entry creates its payload if it is importable, and nothing otherwise. */
  lemma AcceptedStep(es: seq<Entry>, i: nat)
    requires i < |es|
    ensures Accepted(es[..i + 1]) == Accepted(es[..i]) + (if Importable(es[i]) then [ImportPayload(es[i])] else [])
  {
    assert es[..i + 1][..i] == es[..i];
  }

  lemma AppendCreate(prefix: seq<StoreCall>, ps: seq<Payload>, p: Payload)
    ensures prefix + Creates(ps) + [Create(p)] == prefix + Creates(ps + [p])
  {
    assert Creates(ps + [p]) == Creates(ps) + [Create(p)];
  }

  lemma RepeatAppend(prefix: seq<Notice>, n: Notice, k: nat)
    ensures prefix + Repeat(n, k) + [n] == prefix + Repeat(n, k + 1)
  {
    assert Repeat(n, k + 1) == Repeat(n, k) + [n];
  }

  lemma AppendNotices(prefix: seq<Notice>, s: seq<Notice>, t: seq<Notice>)
    ensures prefix + s + t == prefix + (s + t)
  {
  }

  /** When the create numbered `n` is rejected while entry `i` is handled, the import has issued exactly the creates of entries 0..i. */
  lemma RejectedCreate(es: seq<Entry>, i: nat, n: nat)
    requires i < FirstNull(es) && Importable(es[i]) && n == |Accepted(es[..i])|
    ensures n < |Accepted(Reached(es))|
    ensures IssuedCreates(es, Some(n)) == Accepted(es[..i + 1])
  {
    var r := Reached(es);
    assert r[..i] == es[..i] && r[..i + 1] == es[..i + 1] && r[i] == es[i];
    RejectedCreateWithin(r, i, n);
  }

  /** The same fact for a list the loop reaches in full. */
  lemma RejectedCreateWithin(r: seq<Entry>, i: nat, n: nat)
    requires i < |r| && Importable(r[i]) && n == |Accepted(r[..i])|
    ensures n < |Accepted(r)| && Accepted(r)[..n + 1] == Accepted(r[..i + 1])
  {
    AcceptedStep(r, i);
    AcceptedPrefix(r, i + 1);
  }

  /** The loop meets a `null` element only at the first one, having reached exactly what precedes it. */
  lemma NullReachedAt(es: seq<Entry>, i: nat)
    requires i < |es| && i <= FirstNull(es) && es[i].Null?
    ensures i == FirstNull(es) && Reached(es) == es[..i]
  {
  }

  /** Past a non-null element the loop is still before the first `null`. */
  lemma EntryPassed(es: seq<Entry>, i: nat)
    requires i < |es| && i <= FirstNull(es) && es[i].Object?
    ensures i + 1 <= FirstNull(es)
  {
  }

  /** A loop that ran to the end met no `null`. */
  lemma NullFreeEnd(es: seq<Entry>)
    requires |es| <= FirstNull(es)
    ensures FirstNull(es) == |es| && Reached(es) == es && es[..|es|] == es
  {
  }

  /** What the first `n` entries create is the start of what the whole list creates. */
  lemma AcceptedPrefix(es: seq<Entry>, n: nat)
    requires n <= |es|
    ensures |Accepted(es[..n])| <= |Accepted(es)| && Accepted(es)[..|Accepted(es[..n])|] == Accepted(es[..n])
  {
    assert es == es[..n] + es[n..];
    AcceptedAppend(es[..n], es[n..]);
  }
}
