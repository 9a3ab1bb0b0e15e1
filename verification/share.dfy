/** `shareOnWhatsApp` (app/page.tsx): builds a link back to the page that carries the visitor's
    saved name, wraps it in a message, and wraps the message in a `wa.me` link. The page origin
    and the store are parameters; opening the window is left to the caller. The store is only
    read: the function returns no store. */
module Share {
  import opened Wrappers
  import opened Strings
  import opened UriComponent
  import opened Query
  import opened Experience

  /** The name shared when none is saved. */
  const FallbackName := "Explorer"
  const MessageHead := "\U{1F30C} Check this insane galaxy experience \U{1F525}"
  /** The share url's template up to the encoded name. */
  const ShareQueryHead := "?from=whatsapp&name="
  /** The messaging app's deep-link template up to the encoded message. */
  const WaMeTextHead := "https://wa.me/?text="
  const WaMeHost := "https://wa.me/"
  const FromKey := "from"
  const NameKey := "name"
  const TextKey := "text"

  /** What one share produces: the link back to the page, the message around it, and the
      messaging app's deep link that carries the message. */
  datatype ShareLinks = ShareLinks(url: string, message: string, link: string)

  /** `localStorage.getItem("galaxy_user") || "Explorer"`. */
  function SharedName(store: Store): (n: string)
    ensures n != ""
    ensures Truthy(GetItem(store, UserKey)) ==> n == store[UserKey]
    ensures !Truthy(GetItem(store, UserKey)) ==> n == FallbackName
  {
    JsOr(GetItem(store, UserKey), Some(FallbackName)).value
  }

  /** The share template is `?`, then `from=whatsapp`, `&` and `name=`. */
  lemma ShareQueryHeadParts()
    ensures ShareQueryHead == "?" + (FromKey + "=" + Marker + "&" + NameKey + "=")
  {
  }

  lemma WaMeTextHeadParts()
    ensures WaMeTextHead == (WaMeHost + "?") + (TextKey + "=")
  {
  }

  lemma WaMeHostIsOrigin()
    ensures '?' !in WaMeHost && '#' !in WaMeHost
  {
  }

  /** The parameter names of the share link are kept verbatim by the encoder, so the fixed
      template text followed by the encoded name is the query built from the two pairs. */
  lemma ShareQueryIsBuilt(n: string)
    ensures ShareQueryHead + Encode(n) == "?" + BuildQuery([(FromKey, Marker), (NameKey, n)], true)
  {
    var head := FromKey + "=" + Marker + "&" + NameKey + "=";
    ShareQueryHeadParts();
    BuildTwoVerbatimPairs(FromKey, Marker, NameKey, n);
    ConcatAssoc("?", head, Encode(n));
  }

  lemma MessageQueryIsBuilt(m: string)
    ensures WaMeTextHead + Encode(m) == WaMeHost + "?" + BuildQuery([(TextKey, m)], true)
  {
    var host := WaMeHost + "?";
    WaMeTextHeadParts();
    BuildOneVerbatimPair(TextKey, m);
    ConcatAssoc(host, TextKey + "=", Encode(m));
  }

  /** `shareOnWhatsApp()` up to `window.open`. The url is the origin followed by the query that
      carries exactly `from=whatsapp` and the shared name; the message ends with the url on its
      own line; the deep link carries the message as its one `text` parameter. */
  function ShareOnWhatsApp(origin: string, store: Store): (s: ShareLinks)
    ensures s.url == origin + "?" + BuildQuery([(FromKey, Marker), (NameKey, SharedName(store))], true)
    ensures s.message == MessageHead + "\n" + s.url
    ensures s.link == WaMeHost + "?" + BuildQuery([(TextKey, s.message)], true)
  {
    var name := SharedName(store);
    var url := origin + ShareQueryHead + Encode(name);
    var message := MessageHead + "\n" + url;
    ShareQueryIsBuilt(name);
    ConcatAssoc(origin, ShareQueryHead, Encode(name));
    ConcatAssoc(origin, "?", BuildQuery([(FromKey, Marker), (NameKey, name)], true));
    MessageQueryIsBuilt(message);
    ShareLinks(url, message, WaMeTextHead + Encode(message))
  }

  /** The encoded name holds no query delimiter, so it fills exactly one parameter. */
  lemma SharedNameCannotInject(origin: string, store: Store)
    ensures var url := ShareOnWhatsApp(origin, store).url;
            && |url| >= |origin| + |ShareQueryHead|
            && var tail := url[|origin| + |ShareQueryHead|..];
            && tail == Encode(SharedName(store))
            && '&' !in tail && '=' !in tail && '?' !in tail && '#' !in tail && ' ' !in tail
  {
    var n := SharedName(store);
    ShareQueryIsBuilt(n);
    EncodeHasNoDelimiters(n, true);
    var url := ShareOnWhatsApp(origin, store).url;
    assert url == origin + ShareQueryHead + Encode(n);
  }

  /** Reading the share url back as the browser does gives `from = "whatsapp"` and the shared
      name, and nothing else. */
  lemma ShareUrlRoundTrip(origin: string, store: Store)
    requires '?' !in origin && '#' !in origin
    ensures var ps := SearchParams(Search(ShareOnWhatsApp(origin, store).url));
            && ps == Some([(FromKey, Marker), (NameKey, SharedName(store))])
            && Get(ps.value, FromKey) == Some(Marker)
            && Get(ps.value, NameKey) == Some(SharedName(store))
  {
    var n := SharedName(store);
    var ps := [(FromKey, Marker), (NameKey, n)];
    SearchOfBuiltUrl(origin, ps);
    GetTwo(FromKey, Marker, NameKey, n);
  }

  /** Following a share link: the recipient's visit is classified as coming from the messaging
      app, greets the shared name, and saves it, whatever the referrer, user-agent and the
      recipient's store hold. */
  lemma FollowShareLink(origin: string, sharer: Store, referrer: string, userAgent: string,
                        recipient: Store)
    requires '?' !in origin && '#' !in origin
    ensures var ps := SearchParams(Search(ShareOnWhatsApp(origin, sharer).url));
            && ps.Some?
            && var v := Resolve(Get(ps.value, FromKey), Get(ps.value, NameKey), referrer, userAgent, recipient);
            && v.context.isWhatsApp
            && v.context.userName == Some(SharedName(sharer))
            && GetItem(v.store, UserKey) == Some(SharedName(sharer))
  {
    ShareUrlRoundTrip(origin, sharer);
  }

  /** The deep link read back gives the message as its only parameter. */
  lemma DeepLinkCarriesMessage(origin: string, store: Store)
    ensures var s := ShareOnWhatsApp(origin, store);
            SearchParams(Search(s.link)) == Some([(TextKey, s.message)])
  {
    var s := ShareOnWhatsApp(origin, store);
    var ps := [(TextKey, s.message)];
    WaMeHostIsOrigin();
    SearchOfBuiltUrl(WaMeHost, ps);
  }
}
