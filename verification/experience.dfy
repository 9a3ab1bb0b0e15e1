/** `getExperienceContext` (lib/experience.ts): classifies how the visitor arrived, resolves
    the name to greet, and records the visit in the browser's key-value store. The query
    values, the referrer, the user-agent and the store are parameters; the store after the
    call is part of the result. */
module Experience {
  import opened Wrappers
  import opened Strings

  /** `localStorage` as a map from key to stored string. */
  type Store = map<string, string>

  const UserKey := "galaxy_user"
  const VisitedKey := "galaxy_visited"
  /** The value the `from` parameter, the referrer and the user-agent are checked against. */
  const Marker := "whatsapp"
  const IntroText := "\U{2728} Minakshi, Space Explorer"

  /** The object the resolver returns. `isReturning` is the raw stored flag (`null` when absent),
      not a boolean. */
  datatype Context = Context(
    isWhatsApp: bool,
    isReturning: Option<string>,
    userName: Option<string>,
    introText: string)

  /** One resolution: the context and the store as the call leaves it. */
  datatype Visit = Visit(context: Context, store: Store)

  /** `localStorage.getItem(key)`. */
  function GetItem(store: Store, key: string): (v: Option<string>)
    ensures v.Some? <==> key in store
    ensures v.Some? ==> v.value == store[key]
  {
    if key in store then Some(store[key]) else None
  }

  /** JavaScript truthiness of a `string | null`: `null` and `""` are falsy. */
  predicate Truthy(v: Option<string>) {
    v.Some? && v.value != ""
  }

  /** `a || b` on `string | null` operands. */
  function JsOr(a: Option<string>, b: Option<string>): (r: Option<string>)
    ensures Truthy(a) ==> r == a
    ensures !Truthy(a) ==> r == b
  {
    if Truthy(a) then a else b
  }

  /** `setItem` then `getItem`: the key just written reads back its value, and every other key
      reads as before. */
  lemma GetItemAfterSet(store: Store, k: string, v: string, k': string)
    ensures GetItem(store[k := v], k) == Some(v)
    ensures k' != k ==> GetItem(store[k := v], k') == GetItem(store, k')
  {
  }

  /** `||` on `string | null` is associative, so `name || saved || null` may be read either
      way, and its result is truthy exactly when one operand is. */
  lemma JsOrLaws(a: Option<string>, b: Option<string>, c: Option<string>)
    ensures JsOr(JsOr(a, b), c) == JsOr(a, JsOr(b, c))
    ensures Truthy(JsOr(a, b)) <==> Truthy(a) || Truthy(b)
  {
  }

  /** The arrival classification: the `from` value is exactly the marker, or the referrer
      contains it (letter case counts), or the lower-cased user-agent contains it. */
  predicate IsWhatsApp(from: Option<string>, referrer: string, userAgent: string) {
    || from == Some(Marker)
    || Includes(referrer, Marker)
    || Includes(ToLower(userAgent), Marker)
  }

  /** The classification stated by occurrence positions: letter case matters in the referrer
      and is ignored in the user-agent. */
  lemma IsWhatsAppMeaning(from: Option<string>, referrer: string, userAgent: string)
    ensures IsWhatsApp(from, referrer, userAgent) <==>
      || from == Some(Marker)
      || (exists i :: OccursAt(referrer, Marker, i))
      || (exists i :: OccursAtIgnoringCase(userAgent, Marker, i))
  {
    IncludesIgnoringCase(userAgent, Marker);
  }

  /** `getExperienceContext()` with its ambient inputs as parameters. */
  function Resolve(from: Option<string>, name: Option<string>, referrer: string, userAgent: string,
                   store: Store): (v: Visit)
    // arrival channel
    ensures v.context.isWhatsApp <==>
      || from == Some(Marker)
      || (exists i :: OccursAt(referrer, Marker, i))
      || (exists i :: OccursAtIgnoringCase(userAgent, Marker, i))
    // the visited flag as it was before this call's own write
    ensures v.context.isReturning == GetItem(store, VisitedKey)
    // name priority: a non-empty `name`, else a non-empty saved name, else none
    ensures Truthy(name) ==> v.context.userName == name
    ensures !Truthy(name) && Truthy(GetItem(store, UserKey)) ==> v.context.userName == GetItem(store, UserKey)
    ensures !Truthy(name) && !Truthy(GetItem(store, UserKey)) ==> v.context.userName == None
    ensures v.context.userName == None || Truthy(v.context.userName)
    // the greeting ignores every input
    ensures v.context.introText == IntroText
    // the store afterwards
    ensures GetItem(v.store, VisitedKey) == Some("true")
    ensures Truthy(name) ==> GetItem(v.store, UserKey) == name
    ensures !Truthy(name) ==> GetItem(v.store, UserKey) == GetItem(store, UserKey)
    ensures forall k :: k != UserKey && k != VisitedKey ==> GetItem(v.store, k) == GetItem(store, k)
  {
    IsWhatsAppMeaning(from, referrer, userAgent);
    var isWhatsApp := IsWhatsApp(from, referrer, userAgent);
    var savedName := GetItem(store, UserKey);
    var isReturning := GetItem(store, VisitedKey);
    var userName := JsOr(JsOr(name, savedName), None);
    var named := if Truthy(name) then store[UserKey := name.value] else store;
    var visited := named[VisitedKey := "true"];
    Visit(Context(isWhatsApp, isReturning, userName, IntroText), visited)
  }

  /** Only the two keys of the visit flow can change; every other key keeps its value. */
  lemma ResolveKeys(from: Option<string>, name: Option<string>, referrer: string, userAgent: string,
                    store: Store)
    ensures Resolve(from, name, referrer, userAgent, store).store.Keys ==
      store.Keys + {VisitedKey} + (if Truthy(name) then {UserKey} else {})
  {
  }

  /** Every visit after the first sees the flag the first one wrote. */
  lemma SecondVisitIsReturning(from: Option<string>, name: Option<string>, referrer: string, userAgent: string,
                               from': Option<string>, name': Option<string>, referrer': string, userAgent': string,
                               store: Store)
    ensures var first := Resolve(from, name, referrer, userAgent, store);
            Resolve(from', name', referrer', userAgent', first.store).context.isReturning == Some("true")
  {
  }

  /** An empty `name` does not override a saved name and is not stored. */
  lemma EmptyNameKeepsSavedName(from: Option<string>, referrer: string, userAgent: string, store: Store)
    requires Truthy(GetItem(store, UserKey))
    ensures var v := Resolve(from, Some(""), referrer, userAgent, store);
            v.context.userName == Some(store[UserKey]) && v.store[UserKey] == store[UserKey]
  {
  }

  /** Resolving again with the same inputs changes nothing: the store is a fixed point and the
      name and channel come out the same. */
  lemma ResolveIdempotent(from: Option<string>, name: Option<string>, referrer: string, userAgent: string,
                          store: Store)
    ensures var v := Resolve(from, name, referrer, userAgent, store);
            var w := Resolve(from, name, referrer, userAgent, v.store);
            && w.store == v.store
            && w.context.userName == v.context.userName
            && w.context.isWhatsApp == v.context.isWhatsApp
  {
  }

  /** The referrer test is case-sensitive: a referrer spelling the marker in capitals does not
      count when nothing else signals the channel. */
  lemma ReferrerMatchIsCaseSensitive(store: Store)
    ensures !Resolve(None, None, "WhatsApp", "", store).context.isWhatsApp
  {
    var r := "WhatsApp";
    assert r[..|Marker|][0] != Marker[0];
    assert !Includes(r[1..], Marker);
    assert !Includes(r, Marker);
    assert !IsWhatsApp(None, r, "");
  }

  /** The user-agent test ignores case: a user-agent spelling the marker in capitals counts. */
  lemma UserAgentMatchIgnoresCase(store: Store)
    ensures Resolve(None, None, "", "Mozilla/5.0 WhatsApp/2.23", store).context.isWhatsApp
  {
    assert OccursAtIgnoringCase("Mozilla/5.0 WhatsApp/2.23", Marker, 12);
  }

  /** A saved name is replaced by a new explicit one, and the next plain visit greets the new
      name. */
  lemma ExplicitNameReplacesSavedName(referrer: string, userAgent: string, store: Store)
    requires GetItem(store, UserKey) == Some("Asha")
    ensures var first := Resolve(None, Some("Rohit"), referrer, userAgent, store);
            var second := Resolve(None, None, referrer, userAgent, first.store);
            && first.context.userName == Some("Rohit")
            && second.context.userName == Some("Rohit")
  {
  }
}
