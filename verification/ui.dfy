/**
  The web client's screen state (apps/web/src/App.tsx) and its event
  handlers, each taken as one atomic transition. The reply of the local API
  server is an input: `Unreachable` when `fetch` throws, otherwise the
  parsed body (`null` when the body is not JSON).
 */
module Ui {
  import opened Text
  import opened Json
  import opened Types
  import opened Wrappers

  datatype Phase = Idle | SecondFactor | LoggedIn

  datatype Mode = List | Search

  /** The message in the error banner; `NoNotice` is the empty string. */
  datatype Notice =
    | NoNotice
    | LoginFailed | LoginUnreachable
    | CodeRejected | CodeUnreachable
    | LoadFailed | LoadUnreachable
    | EmptyQuery | SearchFailed | SearchUnreachable

  datatype Reply = Unreachable | Answered(body: Value)

  /** The component's state variables (the text fields for credentials and code are not needed). */
  datatype Screen = Screen(
    phase: Phase,
    methods: seq<Value>,
    twoFactorMethod: TwoFAMethod,
    displayName: Value,
    avatars: seq<Value>,
    offset: int,
    hasMore: bool,
    totalAvatars: Option<int>,
    query: string,
    mode: Mode,
    searchOffset: int,
    searchHasMore: bool,
    searchTotal: Option<int>,
    searchResults: seq<Value>,
    notice: Notice)

  /** The state before any event. */
  const Initial: Screen :=
    Screen(Idle, [], Totp, Str(""), [], 0, false, None, "", List, 0, false, None, [], NoNotice)

  /** `j?.ok`, truthy. */
  predicate Accepted(j: Value) {
    Truthy(Get(j, "ok"))
  }

  /** `j.avatars || []`, taken as the list of avatars on the page. */
  function PageItems(j: Value): seq<Value> {
    match Or(Get(j, "avatars"), Arr([]))
    case Arr(items) => items
    case _ => []
  }

  /** `Array.isArray(j.methods) ? j.methods : []`. */
  function OfferedMethods(j: Value): seq<Value> {
    match Get(j, "methods")
    case Arr(items) => items
    case _ => []
  }

  /** `m.includes("totp") ? "totp" : "emailOtp"`. */
  function DefaultMethod(m: seq<Value>): (r: TwoFAMethod)
    ensures r == Totp <==> Str("totp") in m
  {
    if Str("totp") in m then Totp else EmailOtp
  }

  /** `doLogin()`. */
  function DoLogin(s: Screen, reply: Reply): (r: Screen)
    ensures r.avatars == [] && r.offset == s.offset
    ensures r.notice != NoNotice ==> r.phase == s.phase
    ensures reply.Unreachable? ==> r.phase == s.phase && r.notice == LoginUnreachable
    ensures reply.Answered? && !Accepted(reply.body) ==> r.phase == s.phase && r.notice == LoginFailed
    ensures reply.Answered? && Accepted(reply.body) && Get(reply.body, "state") == Str("2fa_required") ==>
      && r.phase == SecondFactor && r.methods == OfferedMethods(reply.body)
      && r.twoFactorMethod == (if Str("totp") in r.methods then Totp else EmailOtp)
    ensures reply.Answered? && Accepted(reply.body) && Get(reply.body, "state") != Str("2fa_required") ==>
      r.phase == LoggedIn && r.displayName == Or(Get(reply.body, "displayName"), Str(""))
  {
    var s0 := s.(notice := NoNotice, avatars := [], displayName := Str(""));
    match reply
    case Unreachable => s0.(notice := LoginUnreachable)
    case Answered(j) =>
      if !Accepted(j) then s0.(notice := LoginFailed)
      else if Get(j, "state") == Str("2fa_required") then
        var m := OfferedMethods(j);
        s0.(methods := m, twoFactorMethod := DefaultMethod(m), phase := SecondFactor)
      else s0.(displayName := Or(Get(j, "displayName"), Str("")), phase := LoggedIn)
  }

  /** `do2fa()`: the only way out of the second-factor phase is an accepted reply. */
  function Do2fa(s: Screen, reply: Reply): (r: Screen)
    ensures r.phase == LoggedIn <==> s.phase == LoggedIn || (reply.Answered? && Accepted(reply.body))
    ensures !(reply.Answered? && Accepted(reply.body)) ==> r == s.(notice := r.notice) && r.notice != NoNotice
  {
    var s0 := s.(notice := NoNotice);
    match reply
    case Unreachable => s0.(notice := CodeUnreachable)
    case Answered(j) =>
      if !Accepted(j) then s0.(notice := CodeRejected)
      else s0.(displayName := Or(Get(j, "displayName"), Str("")), phase := LoggedIn)
  }

  /**
    A list once a page has arrived: the page alone after a reset, the page
    appended otherwise. The new offset is the requested offset plus the
    page length, which on a reset is the page length.
   */
  function Extend(list: seq<Value>, reset: bool, items: seq<Value>): seq<Value> {
    if reset then items else list + items
  }

  /** The offset `loadAvatars(reset)` asks the server for. */
  function LoadOffset(s: Screen, reset: bool): int {
    if reset then 0 else s.offset
  }

  /** `j.total` when it is a number, otherwise the count shown before. */
  function AvatarCount(j: Value, shown: Option<int>): Option<int> {
    if Get(j, "total").Num? then Some(Get(j, "total").n) else shown
  }

  /** `loadAvatars(reset)`. */
  function LoadAvatars(s: Screen, reset: bool, reply: Reply): (r: Screen)
    ensures !(reply.Answered? && Accepted(reply.body)) ==>
      r.avatars == s.avatars && r.offset == s.offset && r.hasMore == s.hasMore && r.notice != NoNotice
    ensures reply.Answered? && Accepted(reply.body) ==> r.notice == NoNotice
    ensures reply.Answered? && Accepted(reply.body) && reset ==>
      r.avatars == PageItems(reply.body) && r.offset == |PageItems(reply.body)|
    ensures reply.Answered? && Accepted(reply.body) && !reset ==>
      r.avatars == s.avatars + PageItems(reply.body) && r.offset == s.offset + |PageItems(reply.body)|
    ensures r.phase == s.phase && r.mode == s.mode && r.searchResults == s.searchResults && r.searchOffset == s.searchOffset
  {
    var s0 := s.(notice := NoNotice);
    match reply
    case Unreachable => s0.(notice := LoadUnreachable)
    case Answered(j) =>
      if !Accepted(j) then s0.(notice := LoadFailed)
      else
        var items := PageItems(j);
        s0.(totalAvatars := AvatarCount(j, s.totalAvatars), hasMore := Truthy(Get(j, "hasMore")),
            avatars := Extend(s.avatars, reset, items), offset := LoadOffset(s, reset) + |items|)
  }

  /** The offset `searchAvatars(reset)` asks the server for. */
  function SearchOffset(s: Screen, reset: bool): int {
    if reset then 0 else s.searchOffset
  }

  /** `Number(j.totalMatches)` when that is finite, otherwise the count shown before. */
  function MatchCount(j: Value, shown: Option<int>): Option<int> {
    if ToNumber(Get(j, "totalMatches")).Some? then ToNumber(Get(j, "totalMatches")) else shown
  }

  /** `searchAvatars(reset)`. */
  function SearchAvatars(s: Screen, reset: bool, reply: Reply): (r: Screen)
    ensures !(reply.Answered? && Accepted(reply.body)) ==>
      && r.searchResults == s.searchResults && r.searchOffset == s.searchOffset
      && r.searchHasMore == s.searchHasMore && r.mode == s.mode && r.notice != NoNotice
    ensures Trim(s.query) != "" && reply.Answered? && Accepted(reply.body) ==>
      && r.mode == Search
      && r.searchResults == (if reset then [] else s.searchResults) + PageItems(reply.body)
      && r.searchOffset == SearchOffset(s, reset) + |PageItems(reply.body)|
    ensures r.phase == s.phase && r.avatars == s.avatars && r.offset == s.offset
  {
    var q := Trim(s.query);
    if q == "" then s.(notice := EmptyQuery)
    else
      match reply
      case Unreachable => s.(notice := SearchUnreachable)
      case Answered(j) =>
        if !Accepted(j) then s.(notice := SearchFailed)
        else ShowSearchPage(s, reset, j)
  }

  /** A search for a blank query only shows a warning; nothing else changes and nothing is requested. */
  lemma SearchBlankQuery(s: Screen, reset: bool, reply: Reply)
    requires Trim(s.query) == ""
    ensures SearchAvatars(s, reset, reply) == s.(notice := EmptyQuery)
  {
  }

  /** The accepted branch of `searchAvatars(reset)`. */
  function ShowSearchPage(s: Screen, reset: bool, j: Value): Screen {
    var items := PageItems(j);
    s.(notice := NoNotice,
       searchTotal := MatchCount(j, s.searchTotal),
       searchHasMore := Truthy(Get(j, "hasMore")),
       searchResults := Extend(s.searchResults, reset, items),
       searchOffset := SearchOffset(s, reset) + |items|,
       mode := Search)
  }

  /** The search state as the list view leaves it. */
  predicate SearchCleared(s: Screen) {
    s.mode == List && s.searchResults == [] && s.searchTotal == None && s.searchOffset == 0 && !s.searchHasMore
  }

  /** The "back to list" button. */
  function BackToList(s: Screen): (r: Screen)
    ensures SearchCleared(r)
    ensures r.avatars == s.avatars && r.offset == s.offset && r.query == s.query && r.phase == s.phase
  {
    s.(mode := List, searchResults := [], searchTotal := None, searchOffset := 0, searchHasMore := false)
  }

  /** The "reload" button as written: clears the search and the offset, then `loadAvatars(true)`. */
  function ReloadAsWritten(s: Screen, reply: Reply): (r: Screen)
    ensures SearchCleared(r) && r.query == ""
    ensures reply.Answered? && Accepted(reply.body) ==>
      r.avatars == PageItems(reply.body) && r.offset == |PageItems(reply.body)| && r.notice == NoNotice
    ensures !(reply.Answered? && Accepted(reply.body)) ==>
      r.avatars == s.avatars && r.offset == 0 && r.notice != NoNotice
  {
    var cleared := BackToList(s).(query := "", offset := 0);
    LoadAvatars(cleared, true, reply)
  }

  /**
    The "reload" button without the eager `setOffset(0)`: `loadAvatars(true)`
    already requests offset 0 and sets the offset when the page arrives.
   */
  function Reload(s: Screen, reply: Reply): (r: Screen)
    ensures SearchCleared(r) && r.query == ""
    ensures reply.Answered? && Accepted(reply.body) ==>
      r.avatars == PageItems(reply.body) && r.offset == |PageItems(reply.body)| && r == ReloadAsWritten(s, reply)
    ensures !(reply.Answered? && Accepted(reply.body)) ==>
      r.avatars == s.avatars && r.offset == s.offset && r.notice != NoNotice
  {
    var cleared := BackToList(s).(query := "");
    LoadAvatars(cleared, true, reply)
  }

  /** What the user can do; a button exists only in the phase (and mode) that shows it. */
  datatype Event =
    | SubmitLogin(reply: Reply)
    | SubmitCode(reply: Reply)
    | PickMethod(m: TwoFAMethod)
    | EditQuery(text: string)
    | SubmitSearch(reply: Reply)
    | LoadMore(reply: Reply)
    | BackToListPressed
    | ReloadPressed(reply: Reply)

  predicate Enabled(s: Screen, e: Event) {
    match e
    case SubmitLogin(_) => s.phase == Idle
    case SubmitCode(_) => s.phase == SecondFactor
    case PickMethod(m) => s.phase == SecondFactor && Str(MethodName(m)) in s.methods
    case EditQuery(_) => s.phase == LoggedIn
    case SubmitSearch(_) => s.phase == LoggedIn
    case LoadMore(_) => s.phase == LoggedIn && (if s.mode == Search then s.searchHasMore else s.hasMore)
    case BackToListPressed => s.phase == LoggedIn && s.mode == Search
    case ReloadPressed(_) => s.phase == LoggedIn
  }

  /**
    One event. "Load more" continues whichever list is shown. Only the
    login and code forms move between phases; "back to list" and reload
    leave the search state cleared.
   */
  function Step(s: Screen, e: Event): (r: Screen)
    requires Enabled(s, e)
    ensures e.SubmitLogin? || e.SubmitCode? || r.phase == s.phase
    ensures r.phase == LoggedIn && s.phase != LoggedIn ==> e.SubmitCode? || e.SubmitLogin?
    ensures e.BackToListPressed? || e.ReloadPressed? ==> SearchCleared(r)
    ensures e.LoadMore? && s.mode == List ==> r.searchResults == s.searchResults
    ensures e.LoadMore? && s.mode == Search ==> r.avatars == s.avatars
  {
    match e
    case SubmitLogin(reply) => DoLogin(s, reply)
    case SubmitCode(reply) => Do2fa(s, reply)
    case PickMethod(m) => s.(twoFactorMethod := m)
    case EditQuery(text) => s.(query := text)
    case SubmitSearch(reply) => SearchAvatars(s, true, reply)
    case LoadMore(reply) => if s.mode == Search then SearchAvatars(s, false, reply) else LoadAvatars(s, false, reply)
    case BackToListPressed => BackToList(s)
    case ReloadPressed(reply) => Reload(s, reply)
  }

  /**
    The bookkeeping the paging relies on: each offset is the length of the
    list it continues, and nothing is listed before login.
   */
  predicate Inv(s: Screen) {
    && s.offset == |s.avatars|
    && s.searchOffset == |s.searchResults|
    && (s.phase != LoggedIn ==> s.avatars == [] && s.searchResults == [])
  }

  lemma InitialInv()
    ensures Inv(Initial)
  {
  }

  /** Every enabled event keeps the offsets in step with the lists. */
  lemma StepKeepsInv(s: Screen, e: Event)
    requires Inv(s) && Enabled(s, e)
    ensures Inv(Step(s, e))
  {
    match e
    case SubmitLogin(reply) => LoginKeepsInv(s, reply);
    case SubmitCode(reply) => SecondFactorKeepsInv(s, reply);
    case SubmitSearch(reply) => SearchKeepsInv(s, true, reply);
    case LoadMore(reply) =>
      if s.mode == Search {
        SearchKeepsInv(s, false, reply);
      } else {
        LoadKeepsInv(s, false, reply);
      }
    case ReloadPressed(reply) => ReloadKeepsInv(s, reply);
    case _ =>
  }

  lemma LoginKeepsInv(s: Screen, reply: Reply)
    requires Inv(s) && s.phase == Idle
    ensures Inv(DoLogin(s, reply))
  {
  }

  lemma SecondFactorKeepsInv(s: Screen, reply: Reply)
    requires Inv(s) && s.phase == SecondFactor
    ensures Inv(Do2fa(s, reply))
  {
  }

  lemma LoadKeepsInv(s: Screen, reset: bool, reply: Reply)
    requires Inv(s) && s.phase == LoggedIn
    ensures Inv(LoadAvatars(s, reset, reply))
  {
  }

  lemma SearchKeepsInv(s: Screen, reset: bool, reply: Reply)
    requires Inv(s) && s.phase == LoggedIn
    ensures Inv(SearchAvatars(s, reset, reply))
  {
  }

  /** Appending a page onto an empty list is the same as resetting the list to it. */
  lemma AppendOntoEmptyIsReset(s: Screen, reply: Reply)
    requires s.avatars == [] && s.offset == 0
    ensures LoadAvatars(s, false, reply) == LoadAvatars(s, true, reply)
  {
    if reply.Answered? && Accepted(reply.body) {
      assert [] + PageItems(reply.body) == PageItems(reply.body);
    }
  }

  /**
    The reload as written breaks the bookkeeping: if the page request fails,
    the old list stays on screen with offset 0, and the next "load more"
    asks for offset 0 again and appends the first page a second time.
   */
  lemma ReloadAsWrittenDuplicates(page: seq<Value>)
    requires |page| > 0
    ensures var s := Initial.(phase := LoggedIn, avatars := page, offset := |page|, hasMore := true);
      var reply := Answered(Obj(map["ok" := Bool(true), "avatars" := Arr(page)]));
      var failed := ReloadAsWritten(s, Unreachable);
      && Inv(s)
      && !Inv(failed)
      && Enabled(failed, LoadMore(reply))
      && LoadOffset(failed, false) == 0
      && Step(failed, LoadMore(reply)).avatars == page + page
  {
  }

  /** With the corrected reload a failed request leaves the list and its offset as they were. */
  lemma ReloadKeepsInv(s: Screen, reply: Reply)
    requires Inv(s) && s.phase == LoggedIn
    ensures Inv(Reload(s, reply))
    ensures !(reply.Answered? && Accepted(reply.body)) ==> LoadOffset(Reload(s, reply), false) == |s.avatars|
  {
  }
}
