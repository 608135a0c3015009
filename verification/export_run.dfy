/** The per-chat loop of `do_actual_export`: each selected chat is exported
    in turn, and a chat whose export raises is filed under "no dialogue",
    "no access" or "error" by the text of the exception. The export of one
    chat is a parameter: `fetch(sn)` is its data or the error text. */
module ExportRun {
  import opened Text
  import opened Collections

  datatype Bucket = NoDialogue | NoAccess | Error

  predicate NoDialogueText(err: string)
  {
    Contains(err, "No such dialogue")
  }

  /** Blocked, deleted, left or service chats. */
  predicate NoAccessText(err: string)
  {
    || Contains(err, "'code': 40300")
    || Contains(err, "Permission denied")
    || Contains(err, "'code': 40401")
    || Contains(err, "Group not found")
    || Contains(err, "no such member")
  }

  /** "No such dialogue" is tested first; then the access errors; anything
      else is an error. */
  function Classify(err: string): (b: Bucket)
    ensures b == NoDialogue <==> NoDialogueText(err)
    ensures b == NoAccess <==> !NoDialogueText(err) && NoAccessText(err)
    ensures b == Error <==> !NoDialogueText(err) && !NoAccessText(err)
  {
    if NoDialogueText(err) then NoDialogue
    else if NoAccessText(err) then NoAccess
    else Error
  }

  /** A text naming both a missing dialogue and a denied permission counts
      as a missing dialogue. */
  lemma NoDialogueWins(err: string)
    requires NoDialogueText(err)
    ensures Classify(err) == NoDialogue
  {
  }

  datatype ChatOutcome<T> = Fetched(data: T) | FetchFailed(error: string)

  /** `all_exports`, `no_dialogs`, `no_access` and `errors`. */
  datatype Run<T> = Run(exports: seq<T>, noDialogs: seq<string>, noAccess: seq<string>, errors: seq<string>)

  /** The line `errors` gets for a chat: `"{sn}: {err}"`. */
  function ErrorLine(sn: string, err: string): string
  {
    sn + ": " + err
  }

  /** The loop over the selected chats, in order. */
  function ExportAll<T>(selected: seq<string>, fetch: string -> ChatOutcome<T>): (r: Run<T>)
    ensures |r.exports| + |r.noDialogs| + |r.noAccess| + |r.errors| == |selected|
    decreases |selected|
  {
    if selected == [] then Run([], [], [], [])
    else
      var r := ExportAll(selected[..|selected| - 1], fetch);
      var sn := selected[|selected| - 1];
      match fetch(sn)
      case Fetched(d) => r.(exports := r.exports + [d])
      case FetchFailed(e) =>
        match Classify(e)
        case NoDialogue => r.(noDialogs := r.noDialogs + [sn])
        case NoAccess => r.(noAccess := r.noAccess + [sn])
        case Error => r.(errors := r.errors + [ErrorLine(sn, e)])
  }

  /** Whether a chat's export failed into bucket `b`. */
  predicate FailedInto<T>(o: ChatOutcome<T>, b: Bucket)
  {
    o.FetchFailed? && Classify(o.error) == b
  }

  /** The error text of a failed export. */
  function ErrorOf<T>(o: ChatOutcome<T>): string
  {
    if o.FetchFailed? then o.error else ""
  }

  /** The exports are the data of the fetched chats, in selection order. */
  lemma {:induction false} ExportsAreFetched<T>(selected: seq<string>, fetch: string -> ChatOutcome<T>)
    ensures Map(ExportAll(selected, fetch).exports, d => Fetched(d))
         == Map(Filter(selected, sn => fetch(sn).Fetched?), fetch)
    decreases |selected|
  {
    if selected != [] {
      var init := selected[..|selected| - 1];
      var sn := selected[|selected| - 1];
      assert selected == init + [sn];
      ExportsAreFetched(init, fetch);
      FilterAppend(init, [sn], sn => fetch(sn).Fetched?);
      var r := ExportAll(init, fetch);
      MapAppend(r.exports, if fetch(sn).Fetched? then [fetch(sn).data] else [], d => Fetched(d));
      MapAppend(Filter(init, sn => fetch(sn).Fetched?), Filter([sn], sn => fetch(sn).Fetched?), fetch);
    }
  }

  /** The chats without a dialogue are those whose export failed with that
      text, in selection order. */
  lemma {:induction false} NoDialogsAreFiltered<T>(selected: seq<string>, fetch: string -> ChatOutcome<T>)
    ensures ExportAll(selected, fetch).noDialogs == Filter(selected, sn => FailedInto(fetch(sn), NoDialogue))
    decreases |selected|
  {
    if selected != [] {
      var init := selected[..|selected| - 1];
      var sn := selected[|selected| - 1];
      assert selected == init + [sn];
      NoDialogsAreFiltered(init, fetch);
      FilterAppend(init, [sn], sn => FailedInto(fetch(sn), NoDialogue));
    }
  }

  /** The chats without access are those whose export failed with an
      access text and no "no dialogue" text, in selection order. */
  lemma {:induction false} NoAccessAreFiltered<T>(selected: seq<string>, fetch: string -> ChatOutcome<T>)
    ensures ExportAll(selected, fetch).noAccess == Filter(selected, sn => FailedInto(fetch(sn), NoAccess))
    decreases |selected|
  {
    if selected != [] {
      var init := selected[..|selected| - 1];
      var sn := selected[|selected| - 1];
      assert selected == init + [sn];
      NoAccessAreFiltered(init, fetch);
      FilterAppend(init, [sn], sn => FailedInto(fetch(sn), NoAccess));
    }
  }

  /** The error lines name the remaining failed chats, in selection order,
      each with its error text. */
  lemma {:induction false} ErrorsAreFiltered<T>(selected: seq<string>, fetch: string -> ChatOutcome<T>)
    ensures ExportAll(selected, fetch).errors
         == Map(Filter(selected, sn => FailedInto(fetch(sn), Error)), sn => ErrorLine(sn, ErrorOf(fetch(sn))))
    decreases |selected|
  {
    if selected != [] {
      var init := selected[..|selected| - 1];
      var sn := selected[|selected| - 1];
      assert selected == init + [sn];
      ErrorsAreFiltered(init, fetch);
      FilterAppend(init, [sn], sn => FailedInto(fetch(sn), Error));
      MapAppend(Filter(init, sn => FailedInto(fetch(sn), Error)), Filter([sn], sn => FailedInto(fetch(sn), Error)),
                sn => ErrorLine(sn, ErrorOf(fetch(sn))));
    }
  }
}
