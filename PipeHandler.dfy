/**
 * The pipe command handlers. Each takes the pane-to-tab cache and an already
 * received payload, and returns the host effects to perform together with the
 * cache as the handler leaves it (the Rust code takes the cache as
 * `&mut PaneTabMap`; here it goes in and comes back out).
 */
module PipeHandler {
  import opened Wrappers
  import opened BoundedInts
  import opened Graphemes
  import opened StatusUtils

  /** A side effect for the host: rename a tab, or write to a CLI pipe. */
  datatype PipeEffect =
    | RenameTab(tabId: uint32, name: string)
    | PipeOutput(pipeName: string, output: string)

  /** The cached (tab position, tab name) of a pane. */
  datatype TabEntry = TabEntry(position: nat, name: string)

  /** pane_id -> (tab_position, tab_name) */
  type PaneTabMap = map<uint32, TabEntry>

  /** A JSON value as far as the payload decoding looks at it. */
  datatype JsonValue = JString(s: string) | JOther

  /**
   * The optional payload string of a pipe message after JSON parsing: absent,
   * neither an object nor an array, an object with its fields, or an array
   * (a derived serde struct also reads its fields by position from an array).
   */
  datatype Payload =
    | Missing
    | Malformed
    | Object(fields: map<string, JsonValue>)
    | Array(items: seq<JsonValue>)

  datatype RenamePayload = RenamePayload(paneId: string, name: string)
  datatype StatusPayload = StatusPayload(paneId: string, action: string, emoji: string)

  /** What a handler returns: the effects and the cache afterwards. */
  datatype Handled = Handled(effects: seq<PipeEffect>, cache: PaneTabMap)

  function StringField(fields: map<string, JsonValue>, key: string): Option<string> {
    if key in fields && fields[key].JString? then Some(fields[key].s) else None
  }

  predicate AllStrings(items: seq<JsonValue>) {
    forall i :: 0 <= i < |items| ==> items[i].JString?
  }

  /**
   * Decoding of `RenamePayload`: from an object, both string fields are
   * required and other fields are ignored; from an array, exactly two strings
   * in field order.
   */
  function DecodeRename(p: Payload): (r: Option<RenamePayload>)
    ensures r.Some? ==> p.Object? || p.Array?
    ensures p.Object? ==>
              (r.Some? <==> StringField(p.fields, "pane_id").Some? && StringField(p.fields, "name").Some?)
    ensures p.Object? && r.Some? ==>
              StringField(p.fields, "pane_id") == Some(r.value.paneId)
              && StringField(p.fields, "name") == Some(r.value.name)
    ensures p.Array? ==> (r.Some? <==> |p.items| == 2 && AllStrings(p.items))
    ensures p.Array? && r.Some? ==> p.items == [JString(r.value.paneId), JString(r.value.name)]
  {
    match p
    case Object(fields) =>
      (match (StringField(fields, "pane_id"), StringField(fields, "name"))
       case (Some(id), Some(name)) => Some(RenamePayload(id, name))
       case _ => None)
    case Array(items) =>
      if |items| == 2 && items[0].JString? && items[1].JString?
      then Some(RenamePayload(items[0].s, items[1].s))
      else None
    case _ => None
  }

  /**
   * Decoding of `StatusPayload`: `pane_id` and `action` are required strings;
   * `emoji` defaults to "" when absent but must be a string when present. An
   * array holds the three fields in order, and may stop before `emoji`.
   */
  function DecodeStatus(p: Payload): (r: Option<StatusPayload>)
    ensures r.Some? ==> p.Object? || p.Array?
    ensures p.Object? ==>
              (r.Some? <==> && StringField(p.fields, "pane_id").Some?
                            && StringField(p.fields, "action").Some?
                            && ("emoji" !in p.fields || p.fields["emoji"].JString?))
    ensures p.Object? && r.Some? ==>
              && StringField(p.fields, "pane_id") == Some(r.value.paneId)
              && StringField(p.fields, "action") == Some(r.value.action)
              && ("emoji" !in p.fields ==> r.value.emoji == "")
              && ("emoji" in p.fields ==> p.fields["emoji"] == JString(r.value.emoji))
    ensures p.Array? ==> (r.Some? <==> (|p.items| == 2 || |p.items| == 3) && AllStrings(p.items))
    ensures p.Array? && r.Some? ==>
              && p.items[..2] == [JString(r.value.paneId), JString(r.value.action)]
              && (|p.items| == 2 ==> r.value.emoji == "")
              && (|p.items| == 3 ==> p.items[2] == JString(r.value.emoji))
  {
    match p
    case Object(fields) =>
      var emoji := if "emoji" in fields then StringField(fields, "emoji") else Some("");
      (match (StringField(fields, "pane_id"), StringField(fields, "action"), emoji)
       case (Some(id), Some(action), Some(e)) => Some(StatusPayload(id, action, e))
       case _ => None)
    case Array(items) =>
      if (|items| == 2 || |items| == 3) && AllStrings(items)
      then Some(StatusPayload(items[0].s, items[1].s, if |items| == 3 then items[2].s else ""))
      else None
    case _ => None
  }

  // ---------------------------------------------------------------------------
  // parse_pane_id: Rust's `u32::from_str`

  predicate IsDigit(c: char) { '0' <= c <= '9' }

  predicate AllDigits(s: string) { forall i :: 0 <= i < |s| ==> IsDigit(s[i]) }

  function DigitValue(c: char): nat
    requires IsDigit(c)
  {
    (c as int) - ('0' as int)
  }

  /** The number a string of decimal digits denotes (most significant first). */
  function DigitsValue(s: string): nat
    requires AllDigits(s)
  {
    if s == [] then 0 else DigitsValue(s[..|s| - 1]) * 10 + DigitValue(s[|s| - 1])
  }

  /**
   * `parse_pane_id`: an optional '+', then one or more decimal digits whose
   * value fits in 32 bits; anything else (empty, a lone '+', a '-', any other
   * character, an overflowing value) is an error.
   */
  function ParsePaneId(s: string): (r: Option<uint32>)
    ensures r.Some? ==> |s| > 0 && (IsDigit(s[0]) || (s[0] == '+' && |s| > 1))
    ensures r.Some? ==> forall i :: 0 < i < |s| ==> IsDigit(s[i])
  {
    var digits := if |s| > 0 && s[0] == '+' then s[1..] else s;
    if digits == [] || !AllDigits(digits) then None
    else if DigitsValue(digits) < TWO_TO_THE_32 then Some(DigitsValue(digits))
    else None
  }

  /** The decimal representation of `n`, without sign or leading zeros. */
  function DecimalString(n: nat): (s: string)
    ensures |s| > 0 && AllDigits(s)
  {
    if n < 10 then [('0' as int + n) as char]
    else DecimalString(n / 10) + [('0' as int + n % 10) as char]
  }

  lemma {:induction false} DecimalValue(n: nat)
    ensures DigitsValue(DecimalString(n)) == n
  {
    if n >= 10 {
      var s := DecimalString(n);
      assert s[..|s| - 1] == DecimalString(n / 10);
      DecimalValue(n / 10);
    }
  }

  /** Every pane id prints in decimal and parses back to itself. */
  lemma ParsePrintedPaneId(id: uint32)
    ensures ParsePaneId(DecimalString(id)) == Some(id)
  {
    DecimalValue(id);
  }

  // ---------------------------------------------------------------------------
  // Cache access

  /** The tab id given to `rename_tab`: the 0-based position plus one, cast to u32. */
  function TabId(position: nat): (id: uint32)
    ensures position + 1 < TWO_TO_THE_32 ==> id == position + 1
  {
    (position + 1) % TWO_TO_THE_32
  }

  /** `get_tab_info`: the cached entry of a pane, None for a pane the cache does not know. */
  function GetTabInfo(cache: PaneTabMap, paneId: uint32): (r: Option<TabEntry>)
    ensures r.None? <==> paneId !in cache
    ensures r.Some? ==> r.value == cache[paneId]
  {
    if paneId in cache then Some(cache[paneId]) else None
  }

  /**
   * `update_cached_name`: only the name of the given pane's entry changes; its
   * position, every other pane (siblings in the same tab included) and an
   * absent pane are left as they were.
   */
  function UpdateCachedName(cache: PaneTabMap, paneId: uint32, newName: string): (r: PaneTabMap)
    ensures r.Keys == cache.Keys
    ensures paneId in cache ==> r[paneId] == TabEntry(cache[paneId].position, newName)
    ensures forall p :: p in cache && p != paneId ==> r[p] == cache[p]
  {
    if paneId in cache then cache[paneId := cache[paneId].(name := newName)] else cache
  }

  // ---------------------------------------------------------------------------
  // Handlers

  /** The cache entry a payload's pane id resolves to, if every step succeeds. */
  function Resolve(cache: PaneTabMap, paneIdText: string): Option<(uint32, TabEntry)> {
    match ParsePaneId(paneIdText)
    case None => None
    case Some(id) => if id in cache then Some((id, cache[id])) else None
  }

  /**
   * A pane id resolves exactly when it parses and `get_tab_info` finds the
   * pane, and then to that pane and its cached entry.
   */
  lemma ResolveFindsCachedPane(cache: PaneTabMap, paneIdText: string)
    ensures var r := Resolve(cache, paneIdText);
            && (r.None? <==> ParsePaneId(paneIdText).None? || GetTabInfo(cache, ParsePaneId(paneIdText).value).None?)
            && (r.Some? ==> ParsePaneId(paneIdText) == Some(r.value.0) && GetTabInfo(cache, r.value.0) == Some(r.value.1))
  {
  }

  /** The invariants every handler keeps, whatever it is asked. */
  ghost predicate HandlerContract(cache: PaneTabMap, pipeName: string, h: Handled) {
    && h.cache.Keys == cache.Keys
    && |h.effects| <= 1
    && (h.effects == [] ==> h.cache == cache)
    && (forall e | e in h.effects :: e.PipeOutput? ==> e.pipeName == pipeName && h.cache == cache)
    && (forall e | e in h.effects :: e.RenameTab? ==>
          exists id | id in cache :: e.tabId == TabId(cache[id].position)
                                  && h.cache == UpdateCachedName(cache, id, e.name))
  }

  /**
   * `handle_rename`: renames the pane's tab to the requested name verbatim and
   * caches that name; any failure yields no effect and the cache unchanged.
   */
  function HandleRename(cache: PaneTabMap, payload: Payload): (h: Handled)
    ensures HandlerContract(cache, "tab-rename", h)
    ensures forall e | e in h.effects :: e.RenameTab?
  {
    match DecodeRename(payload)
    case None => Handled([], cache)
    case Some(rename) =>
      match Resolve(cache, rename.paneId)
      case None => Handled([], cache)
      case Some((id, entry)) =>
        Handled([RenameTab(TabId(entry.position), rename.name)],
                UpdateCachedName(cache, id, rename.name))
  }

  /**
   * `handle_status`: dispatches on the action. `set_status` and `clear_status`
   * rename the tab and cache the new name; `get_status` and `get_name` answer
   * on the caller's pipe and leave the cache alone; everything else, and every
   * failure before it, yields nothing and leaves the cache alone.
   */
  function HandleStatus(cache: PaneTabMap, payload: Payload, pipeName: string): (h: Handled)
    ensures HandlerContract(cache, pipeName, h)
  {
    match DecodeStatus(payload)
    case None => Handled([], cache)
    case Some(status) =>
      match Resolve(cache, status.paneId)
      case None => Handled([], cache)
      case Some((id, entry)) => StatusAction(cache, id, status, pipeName)
  }

  /** What `handle_status` does once the pane is found: dispatch on the action. */
  function StatusAction(cache: PaneTabMap, id: uint32, status: StatusPayload, pipeName: string): (h: Handled)
    requires id in cache
    ensures HandlerContract(cache, pipeName, h)
  {
    var entry := cache[id];
    var baseName := ExtractBaseName(entry.name);
    var tabId := TabId(entry.position);
    if status.action == "set_status" then
      if status.emoji == "" then Handled([], cache)
      else
        var newName := status.emoji + " " + baseName;
        Handled([RenameTab(tabId, newName)], UpdateCachedName(cache, id, newName))
    else if status.action == "clear_status" then
      Handled([RenameTab(tabId, baseName)], UpdateCachedName(cache, id, baseName))
    else if status.action == "get_status" then
      Handled([PipeOutput(pipeName, ExtractStatus(entry.name))], cache)
    else if status.action == "get_name" then
      Handled([PipeOutput(pipeName, baseName)], cache)
    else Handled([], cache)
  }

  // ---------------------------------------------------------------------------
  // What each action does

  /** A status payload that decodes and whose pane is in the cache. */
  predicate StatusResolves(cache: PaneTabMap, payload: Payload) {
    DecodeStatus(payload).Some? && Resolve(cache, DecodeStatus(payload).value.paneId).Some?
  }

  /** A payload that resolves is handled by its action, on the resolved pane. */
  lemma Dispatch(cache: PaneTabMap, payload: Payload, pipeName: string)
    requires StatusResolves(cache, payload)
    ensures var (id, entry) := Resolve(cache, DecodeStatus(payload).value.paneId).value;
            && id in cache && entry == cache[id]
            && HandleStatus(cache, payload, pipeName) == StatusAction(cache, id, DecodeStatus(payload).value, pipeName)
  {
  }

  /**
   * A missing payload, one that does not decode, a pane id that is not a
   * number, a pane the cache does not know, an unknown action, or set_status
   * without an emoji: no effect, and the cache is left exactly as it was.
   */
  lemma StatusFailures(cache: PaneTabMap, payload: Payload, pipeName: string)
    requires || !StatusResolves(cache, payload)
             || DecodeStatus(payload).value.action !in {"set_status", "clear_status", "get_status", "get_name"}
             || (DecodeStatus(payload).value.action == "set_status" && DecodeStatus(payload).value.emoji == "")
    ensures HandleStatus(cache, payload, pipeName) == Handled([], cache)
  {
  }

  /** The same failures for `handle_rename`. */
  lemma RenameFailures(cache: PaneTabMap, payload: Payload)
    requires DecodeRename(payload).None? || Resolve(cache, DecodeRename(payload).value.paneId).None?
    ensures HandleRename(cache, payload) == Handled([], cache)
  {
  }

  /** A rename emits one RenameTab with the requested name verbatim and caches that name. */
  lemma RenameResolved(cache: PaneTabMap, payload: Payload)
    requires DecodeRename(payload).Some?
    requires Resolve(cache, DecodeRename(payload).value.paneId).Some?
    ensures var rename := DecodeRename(payload).value;
            var (id, entry) := Resolve(cache, rename.paneId).value;
            var h := HandleRename(cache, payload);
            && h.effects == [RenameTab(TabId(entry.position), rename.name)]
            && h.cache == UpdateCachedName(cache, id, rename.name)
            && GetTabInfo(h.cache, id) == Some(TabEntry(entry.position, rename.name))
  {
  }

  /**
   * set_status with an emoji renames the pane's tab to "emoji base", where
   * base is the cached name with any old status removed, and caches the new
   * name (SetThenGet shows the status is replaced, never stacked).
   */
  lemma SetStatus(cache: PaneTabMap, payload: Payload, pipeName: string)
    requires StatusResolves(cache, payload)
    requires DecodeStatus(payload).value.action == "set_status"
    requires DecodeStatus(payload).value.emoji != ""
    ensures var status := DecodeStatus(payload).value;
            var (id, entry) := Resolve(cache, status.paneId).value;
            var newName := status.emoji + " " + ExtractBaseName(entry.name);
            var h := HandleStatus(cache, payload, pipeName);
            && h.effects == [RenameTab(TabId(entry.position), newName)]
            && h.cache == UpdateCachedName(cache, id, newName)
  {
    Dispatch(cache, payload, pipeName);
  }

  /**
   * clear_status always renames the tab to its base name and caches it, even
   * when the name had no status (then the name is unchanged).
   */
  lemma ClearStatus(cache: PaneTabMap, payload: Payload, pipeName: string)
    requires StatusResolves(cache, payload)
    requires DecodeStatus(payload).value.action == "clear_status"
    ensures var status := DecodeStatus(payload).value;
            var (id, entry) := Resolve(cache, status.paneId).value;
            var h := HandleStatus(cache, payload, pipeName);
            && h.effects == [RenameTab(TabId(entry.position), ExtractBaseName(entry.name))]
            && h.cache == UpdateCachedName(cache, id, ExtractBaseName(entry.name))
            && (ExtractStatus(entry.name) == "" ==> h.effects == [RenameTab(TabId(entry.position), entry.name)])
  {
    var status := DecodeStatus(payload).value;
    var (id, entry) := Resolve(cache, status.paneId).value;
    var base := ExtractBaseName(entry.name);
    Dispatch(cache, payload, pipeName);
    Reconstruction(entry.name);
  }

  /** get_status and get_name answer once on the caller's pipe and never touch the cache. */
  lemma Queries(cache: PaneTabMap, payload: Payload, pipeName: string)
    requires StatusResolves(cache, payload)
    requires DecodeStatus(payload).value.action in {"get_status", "get_name"}
    ensures var status := DecodeStatus(payload).value;
            var entry := Resolve(cache, status.paneId).value.1;
            var h := HandleStatus(cache, payload, pipeName);
            && h.cache == cache
            && h.effects == [PipeOutput(pipeName,
                 if status.action == "get_status" then ExtractStatus(entry.name)
                 else ExtractBaseName(entry.name))]
  {
    var status := DecodeStatus(payload).value;
    var (id, entry) := Resolve(cache, status.paneId).value;
    Dispatch(cache, payload, pipeName);
    if status.action == "get_status" {
      assert StatusAction(cache, id, status, pipeName)
             == Handled([PipeOutput(pipeName, ExtractStatus(entry.name))], cache);
    } else {
      assert StatusAction(cache, id, status, pipeName)
             == Handled([PipeOutput(pipeName, ExtractBaseName(entry.name))], cache);
    }
  }

  /**
   * Setting a one-cluster status and then asking for it from the same pane
   * reads back that status, and asking for the name reads back the base name
   * the tab had before. (Other panes of the tab keep their own cached name.)
   */
  lemma SetThenGet(cache: PaneTabMap, setPayload: Payload, getPayload: Payload, pipeName: string)
    requires StatusResolves(cache, setPayload)
    requires DecodeStatus(setPayload).value.action == "set_status"
    requires IsCluster(DecodeStatus(setPayload).value.emoji)
    requires DecodeStatus(getPayload).Some?
    requires ParsePaneId(DecodeStatus(getPayload).value.paneId) == ParsePaneId(DecodeStatus(setPayload).value.paneId)
    ensures var before := Resolve(cache, DecodeStatus(setPayload).value.paneId).value.1;
            var after := HandleStatus(cache, setPayload, pipeName).cache;
            && (DecodeStatus(getPayload).value.action == "get_status" ==>
                  HandleStatus(after, getPayload, pipeName).effects
                    == [PipeOutput(pipeName, DecodeStatus(setPayload).value.emoji)])
            && (DecodeStatus(getPayload).value.action == "get_name" ==>
                  HandleStatus(after, getPayload, pipeName).effects
                    == [PipeOutput(pipeName, ExtractBaseName(before.name))])
  {
    var status := DecodeStatus(setPayload).value;
    var before := Resolve(cache, status.paneId).value.1;
    SetStatus(cache, setPayload, pipeName);
    RoundTrip(status.emoji, ExtractBaseName(before.name));
    var after := HandleStatus(cache, setPayload, pipeName).cache;
    assert StatusResolves(after, getPayload);
    if DecodeStatus(getPayload).value.action in {"get_status", "get_name"} {
      Queries(after, getPayload, pipeName);
    }
  }

  /**
   * Clearing after setting a one-cluster status restores the base name the tab
   * had before the status was set.
   */
  lemma SetThenClear(cache: PaneTabMap, setPayload: Payload, clear: Payload, pipeName: string)
    requires StatusResolves(cache, setPayload)
    requires DecodeStatus(setPayload).value.action == "set_status"
    requires IsCluster(DecodeStatus(setPayload).value.emoji)
    requires DecodeStatus(clear).Some? && DecodeStatus(clear).value.action == "clear_status"
    requires ParsePaneId(DecodeStatus(clear).value.paneId) == ParsePaneId(DecodeStatus(setPayload).value.paneId)
    ensures var (id, before) := Resolve(cache, DecodeStatus(setPayload).value.paneId).value;
            var h := HandleStatus(HandleStatus(cache, setPayload, pipeName).cache, clear, pipeName);
            && h.effects == [RenameTab(TabId(before.position), ExtractBaseName(before.name))]
            && h.cache[id] == TabEntry(before.position, ExtractBaseName(before.name))
  {
    var status := DecodeStatus(setPayload).value;
    var before := Resolve(cache, status.paneId).value.1;
    SetStatus(cache, setPayload, pipeName);
    RoundTrip(status.emoji, ExtractBaseName(before.name));
    var after := HandleStatus(cache, setPayload, pipeName).cache;
    assert StatusResolves(after, clear);
    ClearStatus(after, clear, pipeName);
  }

  /**
   * The first set_status example: pane 1 of the tab "Work" at position 0
   * sets the robot status; tab 1 is renamed "<robot> Work" and the cache
   * holds the new name.
   */
  lemma RobotStatusExample()
    ensures var cache := map[1 := TabEntry(0, "Work")];
            var setPayload := Object(map["pane_id" := JString("1"), "action" := JString("set_status"),
                                         "emoji" := JString("\U{1F916}")]);
            var h := HandleStatus(cache, setPayload, "tab-status");
            && h.effects == [RenameTab(1, "\U{1F916} Work")]
            && h.cache == map[1 := TabEntry(0, "\U{1F916} Work")]
  {
    var cache: PaneTabMap := map[1 := TabEntry(0, "Work")];
    var fields := map["pane_id" := JString("1"), "action" := JString("set_status"),
                      "emoji" := JString("\U{1F916}")];
    DecodeRobotStatus();
    PaneIdOne();
    WorkHasNoStatus();
    SetStatus(cache, Object(fields), "tab-status");
    assert "\U{1F916}" + " " + "Work" == "\U{1F916} Work";
  }

  /** set_status without an emoji field decodes with the empty default and does nothing. */
  lemma MissingEmojiExample()
    ensures var cache := map[1 := TabEntry(0, "Work")];
            var payload := Object(map["pane_id" := JString("1"), "action" := JString("set_status")]);
            HandleStatus(cache, payload, "tab-status") == Handled([], cache)
  {
    var payload := Object(map["pane_id" := JString("1"), "action" := JString("set_status")]);
    assert DecodeStatus(payload).value.emoji == "";
  }

  /** A payload given as an array is read by position: ["1", "get_name"] asks for pane 1's base name. */
  lemma ArrayPayloadExample()
    ensures var cache := map[1 := TabEntry(0, "Work")];
            var payload := Array([JString("1"), JString("get_name")]);
            HandleStatus(cache, payload, "tab-status").effects == [PipeOutput("tab-status", "Work")]
  {
    var cache := map[1 := TabEntry(0, "Work")];
    var payload := Array([JString("1"), JString("get_name")]);
    assert DecodeStatus(payload) == Some(StatusPayload("1", "get_name", ""));
    PaneIdOne();
    assert StatusResolves(cache, payload);
    Queries(cache, payload, "tab-status");
    WorkHasNoStatus();
  }

  lemma WorkHasNoStatus()
    ensures ExtractBaseName("Work") == "Work"
  {
    assert ExtensionLength("Work"[1..], false) == 0;
    assert "Work"[..1] == "W";
  }

  lemma DecodeRobotStatus()
    ensures DecodeStatus(Object(map["pane_id" := JString("1"), "action" := JString("set_status"),
                                    "emoji" := JString("\U{1F916}")]))
            == Some(StatusPayload("1", "set_status", "\U{1F916}"))
  {
  }

  lemma PaneIdOne()
    ensures ParsePaneId("1") == Some(1)
  {
    assert DigitsValue("1") == 1 by { assert "1"[..0] == ""; }
  }
}
