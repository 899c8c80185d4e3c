/** The handlers that do not touch cache storage: message and sync tag
    dispatch, the notification built for a push, and the window chosen when
    a notification is clicked. */
module Events {
  import opened Http

  /** Work a handler hands to the platform. */
  datatype Task = SkipWaiting | SyncMessages | UpdateServices

  /** A posted message, already deserialized; `kind` is its `type` field. */
  datatype MessageData = MessageData(kind: Option<string>)

  const SkipWaitingType: string := "SKIP_WAITING"
  const SyncMessagesTag: string := "sync-messages"
  const UpdateServicesTag: string := "update-services"

  /** The message handler: only a present message whose type is exactly
      SKIP_WAITING asks for `skipWaiting`. */
  function MessageTask(data: Option<MessageData>): (t: Option<Task>)
    ensures t.Some? <==> data.Some? && data.value.kind == Some(SkipWaitingType)
    ensures t.Some? ==> t.value == SkipWaiting
  {
    if data.Some? && data.value.kind == Some(SkipWaitingType) then Some(SkipWaiting) else None
  }

  /** The one-shot sync handler. */
  function SyncTask(tag: string): (t: Option<Task>)
    ensures t.Some? <==> tag == SyncMessagesTag
    ensures t.Some? ==> t.value == SyncMessages
  {
    if tag == SyncMessagesTag then Some(SyncMessages) else None
  }

  /** The periodic sync handler. */
  function PeriodicSyncTask(tag: string): (t: Option<Task>)
    ensures t.Some? <==> tag == UpdateServicesTag
    ensures t.Some? ==> t.value == UpdateServices
  {
    if tag == UpdateServicesTag then Some(UpdateServices) else None
  }

  // Push notifications

  /** A push payload after JSON parsing; an absent field is `None`. */
  datatype PushPayload = PushPayload(title: Option<string>, body: Option<string>)

  datatype NotificationAction = NotificationAction(action: string, title: string)

  datatype NotificationOptions = NotificationOptions(
    body: string,
    icon: string,
    badge: string,
    tag: string,
    requireInteraction: bool,
    actions: seq<NotificationAction>)

  datatype Notification = Notification(title: string, options: NotificationOptions)

  const DefaultTitle: string := "مؤسسة النور"
  const DefaultBody: string := "جديد من مؤسسة النور"
  const LogoPath: string := "/images/logo.jpg"
  const NotificationTag: string := "noor-notification"
  const OpenAction: NotificationAction := NotificationAction("open", "فتح")
  const CloseAction: NotificationAction := NotificationAction("close", "إغلاق")

  /** JavaScript's `field || fallback` on a string field: a missing field
      and the empty string are both falsy. */
  function OrDefault(field: Option<string>, fallback: string): (r: string)
    ensures r == fallback || field == Some(r)
    ensures field.Some? && field.value != "" ==> r == field.value
    ensures (field.None? || field.value == "") ==> r == fallback
  {
    if field.Some? && field.value != "" then field.value else fallback
  }

  /** The push handler: an absent payload reads as `{}`. */
  function PushNotification(data: Option<PushPayload>): (n: Notification)
    ensures n.title != "" && n.options.body != ""
    ensures n.title == DefaultTitle || (data.Some? && data.value.title == Some(n.title))
    ensures data.Some? && data.value.title.Some? && data.value.title.value != "" ==> n.title == data.value.title.value
    ensures (data.None? || data.value.title.None? || data.value.title == Some("")) ==> n.title == DefaultTitle
    ensures n.options.body == DefaultBody || (data.Some? && data.value.body == Some(n.options.body))
    ensures data.Some? && data.value.body.Some? && data.value.body.value != "" ==> n.options.body == data.value.body.value
    ensures (data.None? || data.value.body.None? || data.value.body == Some("")) ==> n.options.body == DefaultBody
    ensures n.options.icon == LogoPath && n.options.badge == LogoPath
    ensures n.options.tag == NotificationTag && !n.options.requireInteraction
    ensures n.options.actions == [OpenAction, CloseAction]
  {
    var payload := if data.Some? then data.value else PushPayload(None, None);
    var options := NotificationOptions(
      OrDefault(payload.body, DefaultBody), LogoPath, LogoPath, NotificationTag, false,
      [OpenAction, CloseAction]);
    Notification(OrDefault(payload.title, DefaultTitle), options)
  }

  // Notification clicks

  /** A window returned by `clients.matchAll({type: 'window'})`; `canFocus`
      says whether it has a `focus` member. */
  datatype WindowClient = WindowClient(url: string, canFocus: bool)

  /** What the click handler asks the platform to do. */
  datatype ClickOutcome = NoWindowAction | FocusClient(index: nat) | OpenWindow(url: string)

  const CloseActionName: string := "close"
  const RootUrl: string := "/"

  predicate IsRootWindow(c: WindowClient)
  {
    c.url == RootUrl && c.canFocus
  }

  /** The click handler: a `close` action does nothing; otherwise the first
      focusable window at the site root is focused, and failing that the root
      is opened in a new window when the platform can open one. */
  method NotificationClick(action: string, clientList: seq<WindowClient>, canOpenWindow: bool)
    returns (outcome: ClickOutcome)
    ensures action == CloseActionName ==> outcome == NoWindowAction
    ensures outcome.FocusClient? ==> && outcome.index < |clientList|
                                     && IsRootWindow(clientList[outcome.index])
                                     && forall j :: 0 <= j < outcome.index ==> !IsRootWindow(clientList[j])
    ensures action != CloseActionName ==>
              (outcome.FocusClient? <==> exists j :: 0 <= j < |clientList| && IsRootWindow(clientList[j]))
    ensures action != CloseActionName && (forall j :: 0 <= j < |clientList| ==> !IsRootWindow(clientList[j])) ==>
              outcome == (if canOpenWindow then OpenWindow(RootUrl) else NoWindowAction)
    ensures outcome.OpenWindow? ==> outcome.url == RootUrl && canOpenWindow
  {
    if action == CloseActionName {
      return NoWindowAction;
    }
    var i := 0;
    while i < |clientList|
      invariant 0 <= i <= |clientList|
      invariant forall j :: 0 <= j < i ==> !IsRootWindow(clientList[j])
    {
      if IsRootWindow(clientList[i]) {
        return FocusClient(i);
      }
      i := i + 1;
    }
    if canOpenWindow {
      return OpenWindow(RootUrl);
    }
    return NoWindowAction;
  }
}
