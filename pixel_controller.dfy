/** PixelMEDIA.PixelWeb.Components.PixelController: the controller base
    class's message buckets, its access-GUID gate and its JSON status rule.
    The view and redirect dictionaries (ViewData and TempData) hold the
    message lists, which the controller creates on first use and caches. */
module PixelControllerModel {
  import opened Wrappers
  import opened Values
  import opened Seqs
  import StringHelper
  import opened StatusModel
  import opened ConversionHelper

  /** A List<string> of messages, shared by reference. */
  class MessageList {
    var items: seq<string>

    constructor ()
      ensures items == []
    {
      items := [];
    }

    /** List.Add. */
    method Add(s: string)
      modifies this
      ensures items == old(items) + [s]
    {
      items := items + [s];
    }
  }

  /** An object stored in a view dictionary: a message list or anything else. */
  datatype Entry = ListEntry(list: MessageList) | ObjectEntry(value: Value)

  /** ViewData or TempData: a dictionary of objects by string key. */
  class ViewDictionary {
    var entries: map<string, Entry>

    constructor ()
      ensures entries == map[]
    {
      entries := map[];
    }
  }

  /** The keys CONTEXT_ERRORS and CONTEXT_MESSAGES. */
  const ErrorsKey := "ERRORS"
  const MessagesKey := "MESSAGES"

  /** `dictionary[key] as List<string>` for a present key: null unless the
      entry is a message list. */
  function ListAt(dictionary: ViewDictionary, key: string): MessageList?
    reads dictionary
  {
    if key in dictionary.entries && dictionary.entries[key].ListEntry? then dictionary.entries[key].list else null
  }

  /** What a bucket holds: no entry yet (a first use creates an empty list),
      a message list with its items, or an entry that is not a list, so that
      adding to it throws NullReferenceException. */
  datatype BucketState = Unset | Holds(items: seq<string>) | NotAList

  function StateAt(dictionary: ViewDictionary, key: string): BucketState
    reads dictionary, ListAt(dictionary, key)
  {
    if key !in dictionary.entries then Unset
    else match dictionary.entries[key]
      case ListEntry(l) => Holds(l.items)
      case ObjectEntry(_) => NotAList
  }

  function ItemsOf(state: BucketState): seq<string> {
    if state.Holds? then state.items else []
  }

  /** The state after adding the messages `added` in order: nothing changes
      when there are none, an entry that is not a list stays as it is (the
      first Add throws), otherwise the messages follow the existing ones. */
  function Appended(state: BucketState, added: seq<string>): (r: BucketState)
    ensures added == [] ==> r == state
    ensures state.NotAList? ==> r == NotAList
    ensures added != [] && !state.NotAList? ==> r == Holds(ItemsOf(state) + added)
  {
    if added == [] || state.NotAList? then state else Holds(ItemsOf(state) + added)
  }

  /** Adding in two batches is adding the concatenation. */
  lemma AppendedTwice(state: BucketState, a: seq<string>, b: seq<string>)
    ensures Appended(Appended(state, a), b) == Appended(state, a + b)
  {
    if a != [] && b != [] && !state.NotAList? {
      assert ItemsOf(state) + a + b == ItemsOf(state) + (a + b);
    }
    if a == [] {
      assert a + b == b;
    }
    if b == [] {
      assert a + b == a;
    }
  }

  /** String.IsNullOrWhiteSpace. */
  predicate IsNullOrWhiteSpace(s: Option<string>) {
    s.None? || forall i :: 0 <= i < |s.value| ==> StringHelper.IsWhiteSpace(s.value[i])
  }

  /** The messages AddErrors and AddMessages keep: the non-blank ones, in order. */
  function NonBlank(xs: seq<Option<string>>): (r: seq<string>)
    ensures |r| <= |xs|
    ensures forall i :: 0 <= i < |r| ==> !IsNullOrWhiteSpace(Some(r[i]))
  {
    if xs == [] then []
    else
      var last := xs[|xs| - 1];
      NonBlank(xs[..|xs| - 1]) + (if IsNullOrWhiteSpace(last) then [] else [last.value])
  }

  /** Keeping the non-blank messages of a prefix keeps no more than of the
      whole. */
  lemma {:induction false} NonBlankPrefix(xs: seq<Option<string>>, i: nat)
    requires i <= |xs|
    ensures |NonBlank(xs[..i])| <= |NonBlank(xs)|
    decreases |xs|
  {
    if i < |xs| {
      NonBlankPrefix(xs[..|xs| - 1], i);
      assert xs[..|xs| - 1][..i] == xs[..i];
    } else {
      assert xs[..i] == xs;
    }
  }

  lemma NonBlankSnoc(xs: seq<Option<string>>, i: nat)
    requires i < |xs|
    ensures NonBlank(xs[..i + 1]) == NonBlank(xs[..i]) + NonBlank([xs[i]])
  {
    assert xs[..i + 1][..i] == xs[..i];
    assert NonBlank([xs[i]]) == NonBlank([xs[i]][..0]) + (if IsNullOrWhiteSpace(xs[i]) then [] else [xs[i].value]);
  }

  /** The four lazily cached lists. */
  datatype Bucket = CurrentErrors | CurrentMessages | RedirectErrors | RedirectMessages

  function KeyOf(b: Bucket): string {
    match b
    case CurrentErrors => ErrorsKey
    case RedirectErrors => ErrorsKey
    case CurrentMessages => MessagesKey
    case RedirectMessages => MessagesKey
  }

  /** The HTTP response the controller writes to. Its Status line is the
      status code followed by the status description; a description of None
      stands for the standard text of the code, which is what setting
      StatusCode leaves behind, and setting Status sets both parts. */
  class HttpResponse {
    var statusCode: int
    var statusDescription: Option<string>
    var contentType: string
    var body: string
    var closed: bool
    var cookies: map<string, string>

    constructor ()
      ensures statusCode == 200 && statusDescription == None && contentType == "text/html" && body == []
      ensures !closed && cookies == map[]
    {
      statusCode := 200;
      statusDescription := None;
      contentType := "text/html";
      body := [];
      closed := false;
      cookies := map[];
    }
  }

  /** What Initialize does with a request. */
  datatype Access = Allow | AllowAndSetCookie(value: string) | Forbid

  /** Guid.TryParse(s, out g): g, which stays Guid.Empty when s is null or
      does not parse. `tryParse` stands for the parser. */
  function ParsedOrEmpty(s: Option<string>, tryParse: string -> Option<Guid>): (r: Guid)
    ensures s.None? ==> r == EmptyGuid
    ensures s.Some? && tryParse(s.value).None? ==> r == EmptyGuid
    ensures s.Some? && tryParse(s.value).Some? ==> r == tryParse(s.value).value
  {
    if s.None? then EmptyGuid else tryParse(s.value).GetOr(EmptyGuid)
  }

  predicate IsNullOrEmpty(s: Option<string>) { s.None? || s.value == [] }

  /** The access-GUID decision of Initialize, from the configured value, the
      accessGuid cookie and the accessGuid request value. */
  function AccessDecision(config: Option<string>, cookie: Option<string>, request: Option<string>,
                          tryParse: string -> Option<Guid>): (r: Access)
    ensures IsNullOrEmpty(config) ==> r == Allow
    ensures r.AllowAndSetCookie? ==> Some(r.value) == request && ParsedOrEmpty(request, tryParse) == ParsedOrEmpty(config, tryParse)
    ensures r == Forbid ==> ParsedOrEmpty(cookie, tryParse) != ParsedOrEmpty(config, tryParse)
  {
    if IsNullOrEmpty(config) then Allow
    else
      var accessGuid := ParsedOrEmpty(config, tryParse);
      if accessGuid == ParsedOrEmpty(cookie, tryParse) then Allow
      else if !IsNullOrEmpty(request) && accessGuid == ParsedOrEmpty(request, tryParse) then AllowAndSetCookie(request.value)
      else Forbid
  }

  /** The gate: with no configured GUID everyone passes; otherwise a request
      passes exactly when its cookie or its non-empty request value parses to
      the configured GUID, and only a request value that does so, without a matching cookie, sets
      the cookie, to that request value. */
  lemma AccessDecisionSpec(config: Option<string>, cookie: Option<string>, request: Option<string>,
                           tryParse: string -> Option<Guid>)
    ensures var d := AccessDecision(config, cookie, request, tryParse);
            var g := ParsedOrEmpty(config, tryParse);
            && (IsNullOrEmpty(config) ==> d == Allow)
            && (d != Forbid <==> IsNullOrEmpty(config) || ParsedOrEmpty(cookie, tryParse) == g
                                 || (!IsNullOrEmpty(request) && ParsedOrEmpty(request, tryParse) == g))
            && (d.AllowAndSetCookie? <==> && !IsNullOrEmpty(config) && ParsedOrEmpty(cookie, tryParse) != g
                                          && !IsNullOrEmpty(request) && ParsedOrEmpty(request, tryParse) == g)
            && (d.AllowAndSetCookie? ==> Some(d.value) == request)
  {
  }

  /** A configured GUID that does not parse reads as Guid.Empty, and so does a
      missing cookie: such a request is let in. */
  lemma UnparseableConfigAdmitsMissingCookie(config: string, request: Option<string>, tryParse: string -> Option<Guid>)
    requires config != [] && tryParse(config).None?
    ensures AccessDecision(Some(config), None, request, tryParse) == Allow
  {
  }

  class PixelController {
    var viewData: ViewDictionary
    var tempData: ViewDictionary
    var response: HttpResponse
    var currentErrors: MessageList?
    var currentMessages: MessageList?
    var redirectErrors: MessageList?
    var redirectMessages: MessageList?

    /** CurrentErrors and CurrentMessages live in ViewData, the redirect
        lists in TempData. */
    function DictOf(b: Bucket): ViewDictionary
      reads this
    {
      if b == CurrentErrors || b == CurrentMessages then viewData else tempData
    }

    /** The cached field of a bucket (_currentErrors and so on). */
    function CachedOf(b: Bucket): MessageList?
      reads this
    {
      match b
      case CurrentErrors => currentErrors
      case CurrentMessages => currentMessages
      case RedirectErrors => redirectErrors
      case RedirectMessages => redirectMessages
    }

    function ListOf(b: Bucket): MessageList?
      reads this, DictOf(b)
    {
      ListAt(DictOf(b), KeyOf(b))
    }

    function State(b: Bucket): BucketState
      reads this, DictOf(b), ListOf(b)
    {
      StateAt(DictOf(b), KeyOf(b))
    }

    /** A bucket holds a list exactly when its dictionary registers one. */
    lemma StateOfList(b: Bucket)
      ensures ListOf(b) != null <==> State(b).Holds?
      ensures ListOf(b) != null ==> State(b) == Holds(ListOf(b).items)
    {
    }

    /** The controller's own invariant: the two dictionaries and the response
        are distinct objects, a cached list is the one registered in its
        dictionary, and no list is registered under two buckets. */
    predicate Valid()
      reads this, viewData, tempData
    {
      && viewData != tempData
      && (forall b :: CachedOf(b) != null ==> CachedOf(b) == ListOf(b))
      && (forall b, b' :: b != b' && ListOf(b) != null ==> ListOf(b) != ListOf(b'))
    }

    constructor (response: HttpResponse)
      ensures Valid()
      ensures this.response == response && viewData.entries == map[] && tempData.entries == map[]
      ensures fresh(viewData) && fresh(tempData)
      ensures forall b :: State(b) == Unset && CachedOf(b) == null
    {
      viewData := new ViewDictionary();
      tempData := new ViewDictionary();
      this.response := response;
      currentErrors := null;
      currentMessages := null;
      redirectErrors := null;
      redirectMessages := null;
    }

    /** GetMessageCollection(dictionary, key): the entry as a list when the key
        is present (null when it is not a list); otherwise a new empty list,
        registered under the key. */
    static method GetMessageCollection(dictionary: ViewDictionary, key: string) returns (r: MessageList?)
      modifies dictionary
      ensures key in old(dictionary.entries) ==> dictionary.entries == old(dictionary.entries) && r == ListAt(dictionary, key)
      ensures key !in old(dictionary.entries) ==>
                fresh(r) && r.items == [] && dictionary.entries == old(dictionary.entries)[key := ListEntry(r)]
    {
      if key in dictionary.entries {
        r := ListAt(dictionary, key);
        return;
      }
      var messageCollection := new MessageList();
      dictionary.entries := dictionary.entries[key := ListEntry(messageCollection)];
      r := messageCollection;
    }

    /** The lazy list properties CurrentErrors, CurrentMessages, RedirectErrors
        and RedirectMessages: `cached ?? GetMessageCollection(dictionary, key)`,
        stored back into the cache. Every use returns the list registered in
        the dictionary, so repeated uses return the same list. */
    method Collection(b: Bucket) returns (r: MessageList?)
      requires Valid()
      modifies this, DictOf(b)
      ensures Valid()
      ensures viewData == old(viewData) && tempData == old(tempData) && response == old(response)
      ensures r == ListOf(b) && CachedOf(b) == r
      ensures forall b' :: b' != b ==> CachedOf(b') == old(CachedOf(b'))
      ensures old(State(b)) == Unset ==> fresh(r) && State(b) == Holds([])
      ensures old(State(b)) != Unset ==> State(b) == old(State(b))
      ensures old(State(b)) == Unset ==> DictOf(b).entries == old(DictOf(b).entries)[KeyOf(b) := ListEntry(r)]
      ensures old(State(b)) != Unset ==> DictOf(b).entries == old(DictOf(b).entries)
      ensures forall b' :: b' != b ==> State(b') == old(State(b'))
    {
      var cached := CachedOf(b);
      if cached == null {
        cached := GetMessageCollection(DictOf(b), KeyOf(b));
      }
      label registered:
      SetCached(b, cached);
      r := cached;
      forall b' | b' != b
        ensures ListOf(b') == old(ListOf(b')) && State(b') == old(State(b'))
      {
        assert DictOf(b') == old(DictOf(b'));
        if DictOf(b') == DictOf(b) {
          assert KeyOf(b') != KeyOf(b);
        }
      }
      if old(State(b)) == Unset {
        forall b' | b' != b ensures ListOf(b') != r {
          assert old(allocated(ListOf(b')));
        }
      } else {
        assert ListOf(b) == old(ListOf(b));
      }
      forall x, y | x != y && ListOf(x) != null ensures ListOf(x) != ListOf(y) {
        if x != b && y != b {
          assert ListOf(x) == old(ListOf(x)) && ListOf(y) == old(ListOf(y));
        }
      }
    }

    /** Stores a list in a bucket's cache field. */
    method SetCached(b: Bucket, list: MessageList?)
      modifies this
      ensures CachedOf(b) == list
      ensures forall b' :: b' != b ==> CachedOf(b') == old(CachedOf(b'))
      ensures viewData == old(viewData) && tempData == old(tempData) && response == old(response)
    {
      match b {
        case CurrentErrors => currentErrors := list;
        case CurrentMessages => currentMessages := list;
        case RedirectErrors => redirectErrors := list;
        case RedirectMessages => redirectMessages := list;
      }
    }

    /** Adds one message to a bucket, always: the body shared by
        AddError(s), AddMessage(s) and AddRedirectMessageOrError. */
    method Append(b: Bucket, s: string) returns (r: Result<()>)
      requires Valid()
      modifies this, DictOf(b), ListOf(b)
      ensures Valid()
      ensures viewData == old(viewData) && tempData == old(tempData) && response == old(response)
      ensures r.Err? <==> old(State(b)).NotAList?
      ensures r.Err? ==> r.fault == NullReference
      ensures State(b) == Appended(old(State(b)), [s])
      ensures forall b' :: b' != b ==> State(b') == old(State(b'))
      ensures ListOf(b) == old(ListOf(b)) || fresh(ListOf(b))
    {
      var list := Collection(b);
      if list == null {
        return Err(NullReference);
      }
      list.Add(s);
      r := Ok(());
    }

    /** AddError(s) and AddMessage(s): a message that is not null or white
        space is added to the bucket (CurrentErrors or CurrentMessages);
        any other leaves everything as it was. */
    method AddIfNotBlank(b: Bucket, s: Option<string>) returns (r: Result<()>)
      requires Valid()
      modifies this, DictOf(b), ListOf(b)
      ensures Valid()
      ensures viewData == old(viewData) && tempData == old(tempData) && response == old(response)
      ensures r.Err? <==> !IsNullOrWhiteSpace(s) && old(State(b)).NotAList?
      ensures r.Err? ==> r.fault == NullReference
      ensures State(b) == Appended(old(State(b)), NonBlank([s]))
      ensures forall b' :: b' != b ==> State(b') == old(State(b'))
      ensures ListOf(b) == old(ListOf(b)) || fresh(ListOf(b))
    {
      assert NonBlank([s]) == NonBlank([s][..0]) + (if IsNullOrWhiteSpace(s) then [] else [s.value]);
      if !IsNullOrWhiteSpace(s) {
        r := Append(b, s.value);
      } else {
        r := Ok(());
      }
    }

    /** AddError(s). */
    method AddError(s: Option<string>) returns (r: Result<()>)
      requires Valid()
      modifies this, viewData, ListOf(CurrentErrors)
      ensures Valid()
      ensures viewData == old(viewData) && tempData == old(tempData) && response == old(response)
      ensures r.Err? <==> !IsNullOrWhiteSpace(s) && old(State(CurrentErrors)).NotAList?
      ensures State(CurrentErrors) == Appended(old(State(CurrentErrors)), NonBlank([s]))
      ensures forall b' :: b' != CurrentErrors ==> State(b') == old(State(b'))
    {
      r := AddIfNotBlank(CurrentErrors, s);
    }

    /** AddError(ex): the exception's message. */
    method AddErrorException(ex: Exception) returns (r: Result<()>)
      requires Valid()
      modifies this, viewData, ListOf(CurrentErrors)
      ensures Valid()
      ensures viewData == old(viewData) && tempData == old(tempData) && response == old(response)
      ensures r.Err? <==> !IsNullOrWhiteSpace(Some(ex.message)) && old(State(CurrentErrors)).NotAList?
      ensures State(CurrentErrors) == Appended(old(State(CurrentErrors)), NonBlank([Some(ex.message)]))
      ensures forall b' :: b' != CurrentErrors ==> State(b') == old(State(b'))
    {
      r := AddIfNotBlank(CurrentErrors, Some(ex.message));
    }

    /** AddError(status) and AddMessage(status): the status message is added
        like a string, and the result is status.Success whichever way. */
    method AddStatus(b: Bucket, status: Status) returns (r: Result<bool>)
      requires b == CurrentErrors || b == CurrentMessages
      requires Valid()
      modifies this, DictOf(b), ListOf(b)
      ensures Valid()
      ensures viewData == old(viewData) && tempData == old(tempData) && response == old(response)
      ensures r.Err? <==> !IsNullOrWhiteSpace(Some(status.message)) && old(State(b)).NotAList?
      ensures r.Ok? ==> r.value == status.success
      ensures State(b) == Appended(old(State(b)), NonBlank([Some(status.message)]))
      ensures forall b' :: b' != b ==> State(b') == old(State(b'))
    {
      var added := AddIfNotBlank(b, Some(status.message));
      if added.Err? {
        return Err(added.fault);
      }
      r := Ok(status.success);
    }

    /** AddErrors(errors) and AddMessages(messages): each in turn, so the
        non-blank ones are added in order. */
    method AddAll(b: Bucket, xs: seq<Option<string>>) returns (r: Result<()>)
      requires b == CurrentErrors || b == CurrentMessages
      requires Valid()
      modifies this, DictOf(b), ListOf(b)
      ensures Valid()
      ensures viewData == old(viewData) && tempData == old(tempData) && response == old(response)
      ensures r.Err? <==> NonBlank(xs) != [] && old(State(b)).NotAList?
      ensures State(b) == Appended(old(State(b)), NonBlank(xs))
      ensures forall b' :: b' != b ==> State(b') == old(State(b'))
    {
      var i := 0;
      while i < |xs|
        invariant 0 <= i <= |xs|
        invariant Valid()
        invariant viewData == old(viewData) && tempData == old(tempData) && response == old(response)
        invariant State(b) == Appended(old(State(b)), NonBlank(xs[..i]))
        invariant NonBlank(xs[..i]) == [] || !old(State(b)).NotAList?
        invariant forall b' :: b' != b ==> State(b') == old(State(b'))
        invariant ListOf(b) == old(ListOf(b)) || fresh(ListOf(b))
      {
        var step := AddIfNotBlank(b, xs[i]);
        NonBlankSnoc(xs, i);
        AppendedTwice(old(State(b)), NonBlank(xs[..i]), NonBlank([xs[i]]));
        if step.Err? {
          NonBlankPrefix(xs, i + 1);
          return Err(step.fault);
        }
        i := i + 1;
      }
      assert xs[..i] == xs;
      r := Ok(());
    }

    /** AddRedirectMessageOrError(status): the message, even an empty one, goes
        to RedirectMessages on success and to RedirectErrors on failure; the
        result is status.Success. */
    method AddRedirectMessageOrError(status: Status) returns (r: Result<bool>)
      requires Valid()
      modifies this, tempData, ListOf(RedirectMessages), ListOf(RedirectErrors)
      ensures Valid()
      ensures viewData == old(viewData) && tempData == old(tempData) && response == old(response)
      ensures var b := if status.success then RedirectMessages else RedirectErrors;
              && (r.Err? <==> old(State(b)).NotAList?)
              && (r.Ok? ==> r.value == status.success)
              && State(b) == Appended(old(State(b)), [status.message])
              && forall b' :: b' != b ==> State(b') == old(State(b'))
    {
      var added;
      if status.success {
        added := Append(RedirectMessages, status.message);
      } else {
        added := Append(RedirectErrors, status.message);
      }
      if added.Err? {
        return Err(added.fault);
      }
      r := Ok(status.success);
    }

    /** Initialize's access gate. An allowed request goes on to the base
        initialization (the result is true); one allowed by its request value
        also gets the accessGuid cookie; a forbidden one gets a 403 page and
        a closed response. */
    method Initialize(config: Option<string>, cookie: Option<string>, request: Option<string>,
                      tryParse: string -> Option<Guid>) returns (initialized: bool)
      modifies response
      ensures var d := AccessDecision(config, cookie, request, tryParse);
              && (initialized <==> d != Forbid)
              && (d == Allow ==> unchanged(response))
              && (d.AllowAndSetCookie? ==>
                    && response.cookies == old(response.cookies)["accessGuid" := d.value]
                    && response.statusCode == old(response.statusCode)
                    && response.statusDescription == old(response.statusDescription)
                    && response.contentType == old(response.contentType)
                    && response.body == old(response.body) && response.closed == old(response.closed))
              && (d == Forbid ==> && response.statusCode == 403 && response.statusDescription == Some("Forbidden")
                                  && response.contentType == "text/html"
                                  && response.body == old(response.body) + "403 Access Forbidden"
                                  && response.closed && response.cookies == old(response.cookies))
    {
      var decision := AccessDecision(config, cookie, request, tryParse);
      match decision
      case Allow =>
        initialized := true;
      case AllowAndSetCookie(v) =>
        response.cookies := response.cookies["accessGuid" := v];
        initialized := true;
      case Forbid =>
        response.statusCode := 403;
        response.statusDescription := Some("Forbidden");
        response.contentType := "text/html";
        response.body := response.body + "403 Access Forbidden";
        response.closed := true;
        initialized := false;
    }

    /** JsonStatus(status, statusCode): the status as the JSON payload; the
        response status code is set only when the status is a failure, which
        also resets the status description to the code's standard text. */
    method JsonStatus(status: Status, statusCode: int) returns (payload: Status)
      modifies response
      ensures payload == status
      ensures status.success ==> unchanged(response)
      ensures !status.success ==> response.statusCode == statusCode && response.statusDescription == None
      ensures response.contentType == old(response.contentType)
      ensures response.body == old(response.body)
      ensures response.cookies == old(response.cookies) && response.closed == old(response.closed)
    {
      if !status.success {
        response.statusCode := statusCode;
        response.statusDescription := None;
      }
      payload := status;
    }

    /** JsonStatus(status): failures answer 500 Internal Server Error. */
    method JsonStatusDefault(status: Status) returns (payload: Status)
      modifies response
      ensures payload == status
      ensures status.success ==> unchanged(response)
      ensures !status.success ==> response.statusCode == 500 && response.statusDescription == None
      ensures response.contentType == old(response.contentType)
      ensures response.body == old(response.body)
      ensures response.cookies == old(response.cookies) && response.closed == old(response.closed)
    {
      payload := JsonStatus(status, 500);
    }
  }
}
