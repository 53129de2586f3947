/**
 * The two request middlewares of `pybb/middleware.py`: the client router, which
 * picks the first configured path prefix the request path starts with and
 * attaches that client's settings to the request, and the profile-language rule.
 */
module Middleware {
  import opened Wrappers
  import opened Loaders

  /** One client's entry in `PYBB_CLIENT_FORUMS`; a missing key reads as `None`. */
  datatype ClientConfig = ClientConfig(
    client: Option<string>,
    forumTitle: Option<string>,
    baseTemplate: Option<string>,
    clientTemplates: Option<string>,
    permissionDecorators: Option<seq<string>>)

  /** `PYBB_CLIENT_FORUMS` as (path prefix, configuration) pairs in iteration order. */
  type ClientForums = seq<(string, ClientConfig)>

  /** The session key the language rule writes. */
  const SessionLanguageKey := "django_language"

  /**
   * The request attributes the middlewares read and write. An attribute the
   * router has not set reads as `None`.
   */
  class Request {
    const path: string
    var pybbClient: Option<string>
    var pybbTemplates: Option<ClientTemplateLoader>
    var pybbPermissionDecorators: Option<PermissionDecoratorLoader>
    var pybbDefaultTitle: Option<string>
    var pybbTemplate: Option<string>
    var pybbClientTemplates: Option<ClientTemplateLoader>
    var session: map<string, string>
    var languageCode: string

    constructor (path: string, session: map<string, string>, languageCode: string)
      ensures this.path == path && this.session == session && this.languageCode == languageCode
      ensures pybbClient == None && pybbTemplates == None && pybbPermissionDecorators == None
      ensures pybbDefaultTitle == None && pybbTemplate == None && pybbClientTemplates == None
    {
      this.path := path;
      this.session := session;
      this.languageCode := languageCode;
      pybbClient, pybbTemplates, pybbPermissionDecorators := None, None, None;
      pybbDefaultTitle, pybbTemplate, pybbClientTemplates := None, None, None;
    }
  }

  /** Python truthiness of the configured decorator list: present and non-empty. */
  predicate HasDecorators(c: ClientConfig) {
    c.permissionDecorators.Some? && |c.permissionDecorators.value| > 0
  }

  /** The index of the first entry, from `start` on, whose prefix starts `path`. */
  function FirstPrefixFrom(path: string, forums: ClientForums, start: nat): (r: Option<nat>)
    requires start <= |forums|
    ensures r.Some? ==> start <= r.value < |forums| && forums[r.value].0 <= path
    ensures r.Some? ==> forall j :: start <= j < r.value ==> !(forums[j].0 <= path)
    ensures r.None? ==> forall j :: start <= j < |forums| ==> !(forums[j].0 <= path)
    decreases |forums| - start
  {
    if start == |forums| then None
    else if forums[start].0 <= path then Some(start)
    else FirstPrefixFrom(path, forums, start + 1)
  }

  /** The entry the router applies: none for an empty path, otherwise the first
      entry (in iteration order) whose prefix the path starts with. */
  function FirstMatch(path: string, forums: ClientForums): (r: Option<nat>)
    ensures r.Some? <==> path != "" && exists j :: 0 <= j < |forums| && forums[j].0 <= path
    ensures r.Some? ==> r.value < |forums| && forums[r.value].0 <= path
    ensures r.Some? ==> forall j :: 0 <= j < r.value ==> !(forums[j].0 <= path)
  {
    if path == "" then None else FirstPrefixFrom(path, forums, 0)
  }

  /** When two entries both match, the later one is never applied: first match wins. */
  lemma EarlierPrefixWins(path: string, forums: ClientForums, i: nat, j: nat)
    requires i < j < |forums| && path != ""
    requires forums[i].0 <= path && forums[j].0 <= path
    ensures FirstMatch(path, forums).Some? && FirstMatch(path, forums).value <= i
  {
  }

  /** Overlapping prefixes: with `/forum/` earlier than `/forum/a/` in iteration
      order, a path under `/forum/a/` is routed to the earlier entry. */
  lemma OverlappingPrefixExample(c1: ClientConfig, c2: ClientConfig)
    ensures FirstMatch("/forum/a/topic", [("/forum/", c1), ("/forum/a/", c2)]) == Some(0)
  {
    assert "/forum/" <= "/forum/a/topic";
  }

  /**
   * `PybbRouterMiddleware.process_request`: reset the client attributes, then
   * apply the first entry whose prefix the request path starts with.
   * `pybb_template` and `pybb_client_templates` are only ever set, never reset.
   */
  method RouteRequest(request: Request, forums: ClientForums)
    modifies request
    ensures request.pybbTemplates == None
    ensures request.session == old(request.session) && request.languageCode == old(request.languageCode)
    ensures FirstMatch(request.path, forums).None? ==>
      && request.pybbClient == None
      && request.pybbDefaultTitle == None
      && request.pybbPermissionDecorators == None
      && request.pybbTemplate == old(request.pybbTemplate)
      && request.pybbClientTemplates == old(request.pybbClientTemplates)
    ensures FirstMatch(request.path, forums).Some? ==>
      var c := forums[FirstMatch(request.path, forums).value].1;
      && request.pybbClient == c.client
      && request.pybbDefaultTitle == c.forumTitle
      && request.pybbTemplate == c.baseTemplate
      && request.pybbClientTemplates.Some?
      && fresh(request.pybbClientTemplates.value)
      && request.pybbClientTemplates.value.clientTemplates == c.clientTemplates
      && request.pybbPermissionDecorators ==
           (if HasDecorators(c) then Some(PermissionDecoratorLoader(c.permissionDecorators.value)) else None)
  {
    request.pybbClient := None;
    request.pybbTemplates := None;
    request.pybbPermissionDecorators := None;
    request.pybbDefaultTitle := None;
    if request.path != "" {
      var i := 0;
      while i < |forums|
        invariant 0 <= i <= |forums|
        invariant forall j :: 0 <= j < i ==> !(forums[j].0 <= request.path)
        invariant request.pybbClient == None && request.pybbTemplates == None
        invariant request.pybbPermissionDecorators == None && request.pybbDefaultTitle == None
        invariant request.pybbTemplate == old(request.pybbTemplate)
        invariant request.pybbClientTemplates == old(request.pybbClientTemplates)
        invariant request.session == old(request.session) && request.languageCode == old(request.languageCode)
      {
        var (prefix, config) := forums[i];
        if prefix <= request.path {
          assert FirstMatch(request.path, forums) == Some(i);
          request.pybbClient := config.client;
          request.pybbDefaultTitle := config.forumTitle;
          request.pybbTemplate := config.baseTemplate;
          var loader := new ClientTemplateLoader(config.clientTemplates);
          request.pybbClientTemplates := Some(loader);
          if HasDecorators(config) {
            request.pybbPermissionDecorators := Some(PermissionDecoratorLoader(config.permissionDecorators.value));
          }
          break;
        }
        i := i + 1;
      }
    }
  }

  /** A user's forum profile, as far as the language rule uses it. */
  class Profile {
    var language: string
    /** How many times the profile has been saved. */
    var saveCount: nat

    constructor (language: string)
      ensures this.language == language && saveCount == 0
    {
      this.language := language;
      saveCount := 0;
    }
  }

  /** What the language rule decides: the profile's language afterwards, whether
      the profile is saved, and the language written to the session, if any. */
  datatype LanguageOutcome = LanguageOutcome(profileLanguage: string, saved: bool, sessionLanguage: Option<string>)

  /** The language rule of `PybbMiddleware.process_request` as a decision. */
  function LanguageRule(profileLanguage: string, requestLanguage: string): (o: LanguageOutcome)
    ensures profileLanguage == "" ==>
      o.saved && o.profileLanguage == requestLanguage && o.sessionLanguage == None
    ensures profileLanguage != "" ==> !o.saved && o.profileLanguage == profileLanguage
    ensures o.sessionLanguage.Some? <==> profileLanguage != "" && profileLanguage != requestLanguage
    ensures o.sessionLanguage.Some? ==> o.sessionLanguage.value == profileLanguage
  {
    var language := if profileLanguage == "" then requestLanguage else profileLanguage;
    LanguageOutcome(
      language,
      profileLanguage == "",
      if language != "" && language != requestLanguage then Some(language) else None)
  }

  /** Running the rule a second time with the same request language writes the
      same session language and saves again only when both languages are empty. */
  lemma LanguageRuleSettles(profileLanguage: string, requestLanguage: string)
    ensures var o := LanguageRule(profileLanguage, requestLanguage);
      var o2 := LanguageRule(o.profileLanguage, requestLanguage);
      && o2.profileLanguage == o.profileLanguage
      && o2.sessionLanguage == o.sessionLanguage
      && (o2.saved <==> requestLanguage == "" && profileLanguage == "")
  {
  }

  /**
   * The language part of `PybbMiddleware.process_request` for an authenticated
   * user whose profile is given: adopt the request language when the profile has
   * none (and save), then, when the profile language differs from the request
   * language, store it in the session and make it the request's language.
   */
  method ApplyProfileLanguage(request: Request, profile: Profile, language: string)
    modifies request`session, request`languageCode, profile
    ensures var o := LanguageRule(old(profile.language), language);
      && profile.language == o.profileLanguage
      && profile.saveCount == old(profile.saveCount) + (if o.saved then 1 else 0)
      && request.session == (if o.sessionLanguage.Some?
                             then old(request.session)[SessionLanguageKey := o.sessionLanguage.value]
                             else old(request.session))
      && request.languageCode == (if o.sessionLanguage.Some? then o.sessionLanguage.value
                                  else old(request.languageCode))
  {
    if profile.language == "" {
      profile.language := language;
      profile.saveCount := profile.saveCount + 1;
    }
    if profile.language != "" && profile.language != language {
      request.session := request.session[SessionLanguageKey := profile.language];
      request.languageCode := profile.language;
    }
  }
}
