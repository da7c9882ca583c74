/** `resolve_message` (notify.py:156-192): which text, if any, a hook event
    should speak, given the configured message templates and the transcripts
    that can be read. */
module Resolve {
  import opened Optional
  import opened Strings
  import opened Sentences
  import opened Transcript

  /** The fields of the hook event JSON that the decision reads. An absent
      string field is the empty string, an absent `stop_hook_active` is
      `false`, and an absent `message` is `None`. */
  datatype Event = Event(
    hookEventName: string,
    stopHookActive: bool,
    transcriptSummary: string,
    transcriptPath: string,
    notificationType: string,
    message: Option<string>)

  type Messages = map<string, string>

  const SummaryPlaceholder := "{summary}"
  const MessagePlaceholder := "{message}"

  /** `DEFAULT_CONFIG["messages"]` (notify.py:42-48). */
  const DefaultMessages: Messages := map[
    "prompt_submit" := "On it.",
    "stop" := "Done. {summary}",
    "notification_permission_prompt" := "Need your permission. {message}",
    "notification_idle_prompt" := "Waiting for your input.",
    "notification_default" := "{message}"
  ]

  /** The default table has exactly the five keys of the source, `{summary}`
      appears only in the stop template, `{message}` only in the permission
      and default notification templates, and the other two are fixed text. */
  lemma DefaultMessagesTable()
    ensures DefaultMessages.Keys == {"prompt_submit", "stop", "notification_permission_prompt",
      "notification_idle_prompt", "notification_default"}
    ensures DefaultMessages["prompt_submit"] == "On it."
    ensures DefaultMessages["stop"] == "Done. " + SummaryPlaceholder
    ensures DefaultMessages["notification_permission_prompt"] == "Need your permission. " + MessagePlaceholder
    ensures DefaultMessages["notification_idle_prompt"] == "Waiting for your input."
    ensures DefaultMessages["notification_default"] == MessagePlaceholder
  {
  }

  /** `d.get(key, default)` on a message map. */
  function Lookup(messages: Messages, key: string, default: string): (r: string)
    ensures key in messages ==> r == messages[key]
    ensures key !in messages ==> r == default
  {
    if key in messages then messages[key] else default
  }

  predicate IsPeriod(c: char) { c == '.' }

  /** The part of a stop template before `{summary}`, stripped, without
      trailing periods, in lower case. */
  function StutterPrefix(template: string): string
  {
    Lower(TrimEnd(Strip(SplitHead(template, SummaryPlaceholder)), IsPeriod))
  }

  /** The stop text before truncation (notify.py:172-182). */
  function StopText(template: string, summary: string): string
  {
    if summary == "" then Strip(Replace(template, SummaryPlaceholder, ""))
    else
      var prefix := StutterPrefix(template);
      if prefix != "" && prefix <= Lower(summary) then summary
      else Replace(template, SummaryPlaceholder, summary)
  }

  /** The summary a stop event speaks: the event's own, else the summary of
      the transcript at its path; a path that cannot be opened (absent from
      `transcripts`) gives the empty summary, as the source's `OSError`
      handler does. */
  function StopSummary(event: Event, transcripts: map<string, seq<Record>>): string
  {
    if event.transcriptSummary != "" then event.transcriptSummary
    else if event.transcriptPath == "" then ""
    else if event.transcriptPath in transcripts then TranscriptSummary(transcripts[event.transcriptPath])
    else ""
  }

  /** The notification template: the kind's own, else the generic one, else
      the bare placeholder. */
  function NotificationTemplate(messages: Messages, kind: string): string
  {
    Lookup(messages, "notification_" + kind, Lookup(messages, "notification_default", MessagePlaceholder))
  }

  /** The text spoken for a notification (notify.py:185-190). */
  function NotificationText(messages: Messages, kind: string, message: Option<string>): (text: string)
    ensures |text| <= MaxMessageLength + 1
  {
    var template := NotificationTemplate(messages, kind);
    Truncate(Replace(template, MessagePlaceholder, message.GetOr("Notification")), MaxMessageLength)
  }

  /** The text spoken when the assistant stops (notify.py:166-183). */
  function StopMessage(messages: Messages, event: Event, transcripts: map<string, seq<Record>>): (text: string)
    ensures |text| <= MaxMessageLength + 1
  {
    var template := Lookup(messages, "stop", "Done. {summary}");
    Truncate(StopText(template, StopSummary(event, transcripts)), MaxMessageLength)
  }

  /** `resolve_message(event, config)`; `configured` is `config["messages"]`
      when present. */
  function ResolveMessage(event: Event, configured: Option<Messages>, transcripts: map<string, seq<Record>>)
    : (r: Option<string>)
    ensures event.hookEventName !in {"UserPromptSubmit", "Stop", "Notification"} ==> r == None
    ensures event.hookEventName == "Stop" && event.stopHookActive ==> r == None
    ensures event.hookEventName == "UserPromptSubmit" ==>
      r == Some(Lookup(configured.GetOr(DefaultMessages), "prompt_submit", "On it."))
    ensures event.hookEventName == "Stop" && !event.stopHookActive ==>
      r == Some(StopMessage(configured.GetOr(DefaultMessages), event, transcripts)) && |r.value| <= MaxMessageLength + 1
    ensures event.hookEventName == "Notification" ==>
      r == Some(NotificationText(configured.GetOr(DefaultMessages), event.notificationType, event.message)) &&
      |r.value| <= MaxMessageLength + 1
  {
    var messages := configured.GetOr(DefaultMessages);
    if event.hookEventName == "UserPromptSubmit" then
      Some(Lookup(messages, "prompt_submit", "On it."))
    else if event.hookEventName == "Stop" then
      if event.stopHookActive then None
      else Some(StopMessage(messages, event, transcripts))
    else if event.hookEventName == "Notification" then
      Some(NotificationText(messages, event.notificationType, event.message))
    else None
  }

  /** A stop template made of plain text and a trailing `{summary}`: an empty
      summary gives the stripped text; a summary whose lower-case form starts
      with the text's prefix replaces the template; any other summary is
      appended to the text. */
  lemma StopTextTrailingPlaceholder(lead: string, summary: string)
    requires '{' !in lead
    ensures var prefix := Lower(TrimEnd(Strip(lead), IsPeriod));
      StopText(lead + SummaryPlaceholder, summary) ==
        if summary == "" then Strip(lead)
        else if prefix != "" && prefix <= Lower(summary) then summary
        else lead + summary
  {
    var template := lead + SummaryPlaceholder;
    FindAfterPlain(lead, SummaryPlaceholder);
    assert template[..|lead|] == lead;
    FillTrailingPlaceholder(lead, SummaryPlaceholder, summary);
    FillTrailingPlaceholder(lead, SummaryPlaceholder, "");
    assert lead + "" == lead;
  }

  lemma DoneLead()
    ensures Lower(TrimEnd(Strip("Done. "), IsPeriod)) == "done"
    ensures Strip("Done. ") == "Done."
  {
    DoneStripped();
    DonePeriodless();
  }

  lemma DoneStripped()
    ensures Strip("Done. ") == "Done."
  {
    var done := "Done.";
    assert "Done. " == done + [' '];
    assert done[0] == 'D' && done[|done| - 1] == '.';
    StripDropsTrailingSpace(done, ' ');
  }

  /** A text with no whitespace at either end followed by one whitespace
      character is stripped back to the text. */
  lemma StripDropsTrailingSpace(a: string, c: char)
    requires a != [] && !IsSpace(a[0]) && !IsSpace(a[|a| - 1]) && IsSpace(c)
    ensures Strip(a + [c]) == a
  {
    assert (a + [c])[..|a|] == a;
    assert TrimEnd(a + [c], IsSpace) == TrimEnd(a, IsSpace) == a;
  }

  lemma DonePeriodless()
    ensures Lower(TrimEnd("Done.", IsPeriod)) == "done"
  {
    assert "Done."[..4] == "Done";
    assert TrimEnd("Done.", IsPeriod) == TrimEnd("Done", IsPeriod);
    assert TrimEnd("Done", IsPeriod) == "Done";
  }

  /** The default stop template: "Done." for no summary, the summary alone when
      it already starts with "done" in any case, and "Done. " before it
      otherwise. */
  lemma DefaultStopText(summary: string)
    ensures StopText(DefaultMessages["stop"], summary) ==
      if summary == "" then "Done."
      else if "done" <= Lower(summary) then summary
      else "Done. " + summary
  {
    assert DefaultMessages["stop"] == "Done. " + SummaryPlaceholder;
    StopTextTrailingPlaceholder("Done. ", summary);
    DoneLead();
  }

  /** Stutter avoidance: whenever the stop text is not the summary itself, the
      summary does not begin with the template's prefix. */
  lemma NoStutter(template: string, summary: string)
    requires summary != "" && StopText(template, summary) != summary
    ensures StutterPrefix(template) == "" || !(StutterPrefix(template) <= Lower(summary))
  {
  }

  /** A summary carried by the event makes the transcripts irrelevant. */
  lemma EventSummaryWins(event: Event, configured: Option<Messages>, t1: map<string, seq<Record>>, t2: map<string, seq<Record>>)
    requires event.transcriptSummary != ""
    ensures ResolveMessage(event, configured, t1) == ResolveMessage(event, configured, t2)
  {
  }

  /** With neither the kind's template nor the generic one configured, a
      notification speaks its message. */
  lemma NotificationFallsBackToMessage(messages: Messages, kind: string, message: Option<string>)
    requires "notification_" + kind !in messages && "notification_default" !in messages
    ensures NotificationText(messages, kind, message) == Truncate(message.GetOr("Notification"), MaxMessageLength)
  {
    PlaceholderAlone(message.GetOr("Notification"));
  }

  /** A template that is only the placeholder becomes the substitute. */
  lemma PlaceholderAlone(sub: string)
    ensures Replace(MessagePlaceholder, MessagePlaceholder, sub) == sub
  {
    FillTrailingPlaceholder([], MessagePlaceholder, sub);
    assert [] + MessagePlaceholder == MessagePlaceholder;
    assert [] + sub == sub;
  }

  lemma NotificationKey(kind: string, name: string)
    requires "notification_" + kind == "notification_" + name
    ensures kind == name
  {
    var p := "notification_";
    assert kind == (p + kind)[|p|..];
    assert name == (p + name)[|p|..];
  }

  /** With the default messages, an idle notification ignores its message. */
  lemma DefaultIdleNotification(message: Option<string>)
    ensures NotificationText(DefaultMessages, "idle_prompt", message) == "Waiting for your input."
  {
    assert "notification_" + "idle_prompt" == "notification_idle_prompt";
    var waiting := "Waiting for your input.";
    assert NotificationTemplate(DefaultMessages, "idle_prompt") == waiting;
    assert '{' !in waiting;
    ReplaceAbsent(waiting, MessagePlaceholder, message.GetOr("Notification"));
    assert |waiting| <= MaxMessageLength;
  }

  /** With the default messages, a permission notification puts its message
      after the request for permission. */
  lemma DefaultPermissionNotification(message: Option<string>)
    ensures NotificationText(DefaultMessages, "permission_prompt", message) ==
      Truncate("Need your permission. " + message.GetOr("Notification"), MaxMessageLength)
  {
    var lead := "Need your permission. ";
    PermissionTemplate();
    assert '{' !in lead;
    FillTrailingPlaceholder(lead, MessagePlaceholder, message.GetOr("Notification"));
  }

  lemma PermissionTemplate()
    ensures NotificationTemplate(DefaultMessages, "permission_prompt") == "Need your permission. " + MessagePlaceholder
  {
    assert "notification_" + "permission_prompt" == "notification_permission_prompt";
  }

  /** With the default messages, any other notification kind speaks its
      message. */
  lemma DefaultOtherNotification(kind: string, message: Option<string>)
    requires kind != "idle_prompt" && kind != "permission_prompt"
    ensures NotificationText(DefaultMessages, kind, message) == Truncate(message.GetOr("Notification"), MaxMessageLength)
  {
    var key := "notification_" + kind;
    assert key[0] == 'n';
    if key == "notification_idle_prompt" {
      assert "notification_idle_prompt" == "notification_" + "idle_prompt";
      NotificationKey(kind, "idle_prompt");
    }
    if key == "notification_permission_prompt" {
      assert "notification_permission_prompt" == "notification_" + "permission_prompt";
      NotificationKey(kind, "permission_prompt");
    }
    assert NotificationTemplate(DefaultMessages, kind) == MessagePlaceholder;
    PlaceholderAlone(message.GetOr("Notification"));
  }

  /** A prompt submission with the default messages says "On it.". */
  lemma DefaultPromptSubmit(event: Event, transcripts: map<string, seq<Record>>)
    requires event.hookEventName == "UserPromptSubmit"
    ensures ResolveMessage(event, None, transcripts) == Some("On it.")
  {
  }

  /** A stop event with the default messages and a summary given inline. */
  lemma DefaultStopWithSummary(event: Event, transcripts: map<string, seq<Record>>)
    requires event.hookEventName == "Stop" && !event.stopHookActive && event.transcriptSummary != ""
    ensures var s := event.transcriptSummary;
      ResolveMessage(event, None, transcripts) ==
        Some(Truncate(if "done" <= Lower(s) then s else "Done. " + s, MaxMessageLength))
  {
    DefaultStopText(event.transcriptSummary);
  }

  /** A stop event with the default messages and no summary anywhere says
      "Done.". */
  lemma DefaultStopWithoutSummary(event: Event, transcripts: map<string, seq<Record>>)
    requires event.hookEventName == "Stop" && !event.stopHookActive
    requires StopSummary(event, transcripts) == ""
    ensures ResolveMessage(event, None, transcripts) == Some("Done.")
  {
    DefaultStopText("");
  }

  /** A stop event whose summary does not open with "done". */
  lemma StopScenarioPrefixed(transcripts: map<string, seq<Record>>)
    ensures var summary := "Fixed the null pointer bug in the parser.";
      ResolveMessage(Event("Stop", false, summary, "", "", None), None, transcripts) ==
        Some("Done. " + summary)
  {
    var summary := "Fixed the null pointer bug in the parser.";
    FixedIsNotDone(summary);
    DefaultStopWithSummary(Event("Stop", false, summary, "", "", None), transcripts);
  }

  lemma FixedIsNotDone(summary: string)
    requires summary != [] && summary[0] == 'F'
    ensures !("done" <= Lower(summary))
  {
    assert Lower(summary)[0] == LowerChar('F') == 'f';
  }

  /** A stop event whose summary already opens with "Done," is spoken as is. */
  lemma StopScenarioStutter(transcripts: map<string, seq<Record>>)
    ensures var summary := "Done, fixed the bug.";
      ResolveMessage(Event("Stop", false, summary, "", "", None), None, transcripts) == Some(summary)
  {
    var summary := "Done, fixed the bug.";
    assert Lower(summary)[..4] == "done" by {
      assert LowerChar('D') == 'd';
    }
    DefaultStopWithSummary(Event("Stop", false, summary, "", "", None), transcripts);
  }

  /** An idle notification with the default messages. */
  lemma IdleScenario(transcripts: map<string, seq<Record>>)
    ensures ResolveMessage(Event("Notification", false, "", "", "idle_prompt", Some("waiting")), None, transcripts) ==
      Some("Waiting for your input.")
  {
    DefaultIdleNotification(Some("waiting"));
  }

  /** An empty event matches no branch. */
  lemma EmptyEventScenario(configured: Option<Messages>, transcripts: map<string, seq<Record>>)
    ensures ResolveMessage(Event("", false, "", "", "", None), configured, transcripts) == None
  {
  }
}
