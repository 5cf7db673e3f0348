# Guanxi SP engine: a Dafny model of its decision logic

The Guanxi service-provider engine sits between Guards (the protected
applications) and SAML identity providers. This project models, as pure
functions over immutable data, the parts of the engine that decide things:

- the embedded discovery widget (`idpselect.js`, `typeahead.js`): the
  recently-used IdP list and its `_saml_idp` cookie value, with the widget's
  own Base64 and `encodeURIComponent`; the preferred-IdP list; catalog
  lookups; the HTML-encoding helpers; the type-ahead search and its
  drop-down state machine;
- the server's routing: choosing a profile and an IdP entityID
  (`GenericProfileService`), the SAML2 endpoint and binding
  (`SAML2ProfileService`, `WebBrowserSSOService`), the assertion consumer's
  relay-state, query-string and session checks
  (`WebBrowserSSOAuthConsumerService`) and its clustered variant;
- the discovery feed registry and its JSON text (`DiscoveryFeedManager`,
  `DiscoveryEntity`);
- the X.509 chain check and trust store (`X509Chain`) over abstract
  certificates, the PEM framing and all-or-nothing reload of the metadata
  job (`MetadataLoader`), the HTTPS tests (`Util`) and the names, URLs,
  algorithms, validity window and chain of Guard registration
  (`RegisterGuardFormController`).

The servlet context and the entity farm are maps. A Java exception is a
`Failure` value, and a JavaScript `URIError` is `None`. Foreign code is
either a function-typed parameter or a symbolic term:

- the certificate parser and the Axis base64 codec
  (`org.apache.axis.encoding.Base64`) are function parameters;
- request signing is a function parameter;
- deflate, Base64 and URL encoding of an AuthnRequest are `Wire` terms.

One module per source component; `Wrappers` (Option/Result) and `Text`
(Java and JavaScript string operations: `indexOf`, `toLowerCase`,
`replaceAll`, Java's `split` with its dropped trailing empty fields, `trim`)
are shared.

Where the description of the system and the code disagree, the model
follows the code:

- `retrieveUserSelectedIdPs` lets a malformed `%` escape in the cookie
  make `decodeURIComponent` throw; the model returns `None` there rather
  than treating a bad cookie as harmless.
- `getPreferredIdPs` bounds its recency loop by the output index, not by
  the number of recent choices (see Findings).

## Model

| member | source | states |
|---|---|---|
| Preferences.Without | src/main/webapp/guanxi_sp/eds/idpselect.js:1083-1088 | the entries kept by the pop loop are exactly the old entries other than the new IdP |
| Preferences.UpdateSelectedIdPs | src/main/webapp/guanxi_sp/eds/idpselect.js:1071-1096 | the pop/unshift loop yields the new IdP followed by the old list without it, order kept |
| Preferences.WithoutAppend | src/main/webapp/guanxi_sp/eds/idpselect.js:1083-1088 | removing an IdP from a concatenation removes it from each part |
| Preferences.UpdatedOnce | src/main/webapp/guanxi_sp/eds/idpselect.js:1071-1096 | after an update the selected IdP occurs exactly once, at the front |
| Preferences.UpdatedIdempotent | src/main/webapp/guanxi_sp/eds/idpselect.js:1071-1096 | selecting the same IdP twice gives the same list as selecting it once |
| Preferences.UpdatedMembers | src/main/webapp/guanxi_sp/eds/idpselect.js:1071-1096 | an update neither loses nor invents IdPs |
| Preferences.PinnedCount | src/main/webapp/guanxi_sp/eds/idpselect.js:1049-1053 | the pinned prefix is no longer than the pin list and shorter than the maximum |
| Preferences.PreferredIdPsAsWritten | src/main/webapp/guanxi_sp/eds/idpselect.js:1040-1064 | pins looked up first, then recency entries while the output index is below both the recency length and the maximum |
| Preferences.PreferredIdPs | src/main/webapp/guanxi_sp/eds/idpselect.js:1040-1064 | corrected list: pins, then recent choices until the maximum is reached; never longer than the maximum |
| Preferences.AsWrittenHidesShortRecency | src/main/webapp/guanxi_sp/eds/idpselect.js:1060-1062 | as written, no recent choice is shown when the pins are at least as many as the recent choices |
| Preferences.AsWrittenDropsRecentChoice | src/main/webapp/guanxi_sp/eds/idpselect.js:1060-1062 | two pins, maximum three, one recent choice: the source shows two entries, the intended list three |
| Preferences.PreferredShowsAllRecency | src/main/webapp/guanxi_sp/eds/idpselect.js:1040-1064 | with room to spare the corrected list shows every recent choice after the pins |
| Preferences.Tile | src/main/webapp/guanxi_sp/eds/idpselect.js:606-611 | a button for exactly the found entries among the first `maxPreferred`: every such entry has one, and every button is such an entry; unknown entityIDs give no button |
| Preferences.TileSnoc | src/main/webapp/guanxi_sp/eds/idpselect.js:606-611 | the buttons keep the list's order: one more entry adds its button at the end, only within the first `maxPreferred` and when found |
| Preferences.TileFromCatalog | src/main/webapp/guanxi_sp/eds/idpselect.js:408-416 | every button of the tile is a catalog IdP that was pinned or recently chosen |
| Preferences.Kept | src/main/webapp/guanxi_sp/eds/idpselect.js:1141-1150 | at most five stored entries, each non-empty and taken from the list, and every non-empty entry among the first five is stored |
| Preferences.NonEmpty | src/main/webapp/guanxi_sp/eds/idpselect.js:1145-1149 | exactly the non-empty entries: none empty, each from the list, none of the list's non-empty entries lost |
| Preferences.NonEmptySnoc | src/main/webapp/guanxi_sp/eds/idpselect.js:1145-1149 | the order is kept: one more entry lands at the end unless it is empty |
| Preferences.KeptSnoc | src/main/webapp/guanxi_sp/eds/idpselect.js:1141-1150 | stored in order: an entry after the fifth is dropped, an earlier one is appended unless empty |
| Preferences.DecodeSegment | src/main/webapp/guanxi_sp/eds/idpselect.js:1121-1127 | an empty segment is skipped; a decoded segment adds at most one non-empty IdP |
| Preferences.RetrieveValue | src/main/webapp/guanxi_sp/eds/idpselect.js:1119-1128 | the IdPs read from a cookie value are all non-empty |
| Preferences.RetrievePairs | src/main/webapp/guanxi_sp/eds/idpselect.js:1108-1130 | the IdPs of all `_saml_idp` pairs of the cookie, in order, all non-empty |
| Preferences.EntryRoundTrip | src/main/webapp/guanxi_sp/eds/idpselect.js:1124-1148 | a stored entry is non-empty, free of '+' and white space, and decodes back to its entityID |
| Preferences.SaveRetrieve | src/main/webapp/guanxi_sp/eds/idpselect.js:1103-1159 | reading a saved value gives back the non-empty entries among the first five (entityIDs of 8-bit code units) |
| Preferences.RetrieveCookie | src/main/webapp/guanxi_sp/eds/idpselect.js:1103-1159 | the whole cookie string `_saml_idp=<value>` reads back as the saved entries |
| Preferences.SelectedComesFirst | src/main/webapp/guanxi_sp/eds/idpselect.js:902-905 | after a selection, the next read of the cookie lists the selected IdP first |
| Preferences.Submit | src/main/webapp/guanxi_sp/eds/idpselect.js:684-697 | the entry form submits exactly when the hidden value is present, non-empty and not "-", and then saves the updated list |
| Base64Js.TableIndexOfTableChar | src/main/webapp/guanxi_sp/eds/idpselect.js:70 | each table character is found back at its own position |
| Base64Js.BitOrDisjoint | src/main/webapp/guanxi_sp/eds/idpselect.js:1216-1218 | the decoder's `|` of a shifted value and smaller bits is addition |
| Base64Js.GroupIndicesOfEncode | src/main/webapp/guanxi_sp/eds/idpselect.js:1174-1189 | an encoder group is four table characters whose positions the decoder's filter and `indexOf` recover |
| Base64Js.QuadRoundTrip | src/main/webapp/guanxi_sp/eds/idpselect.js:1174-1227 | one decoder turn undoes one encoder turn, padding included |
| Base64Js.DecodeGroupsOfEncode | src/main/webapp/guanxi_sp/eds/idpselect.js:1170-1235 | the decoder loop over the encoder's output gives the input back |
| Base64Js.RoundTrip | src/main/webapp/guanxi_sp/eds/idpselect.js:1170-1235 | `base64Decode(base64Encode(s)) == s` for non-empty `s` of code units below 256 |
| Base64Js.EncodeInTable | src/main/webapp/guanxi_sp/eds/idpselect.js:1186-1208 | every character the encoder writes survives the decoder's filter |
| Base64Js.DecodeEmpty | src/main/webapp/guanxi_sp/eds/idpselect.js:1210-1232 | the do-while runs once on the empty input and yields three NUL characters |
| Base64Js.WideCodeUnitLost | src/main/webapp/guanxi_sp/eds/idpselect.js:1177-1180 | a code unit above 255 does not survive the codec |
| UriComponent.Utf8 | src/main/webapp/guanxi_sp/eds/idpselect.js:1148 | a scalar value is one to four bytes, the later ones continuation bytes |
| UriComponent.DecodeUtf8 | src/main/webapp/guanxi_sp/eds/idpselect.js:1124 | a valid UTF-8 sequence decodes to the scalar value it encodes |
| UriComponent.TokensOfEscapes | src/main/webapp/guanxi_sp/eds/idpselect.js:1124 | the escapes of a byte sequence read back as those bytes |
| UriComponent.DecodeEncodeChar | src/main/webapp/guanxi_sp/eds/idpselect.js:1124-1148 | decoding the encoding of one character in front of decodable text gives that character back in front |
| UriComponent.RoundTrip | src/main/webapp/guanxi_sp/eds/idpselect.js:1124-1148 | `decodeURIComponent(encodeURIComponent(s)) == s` for every string |
| UriComponent.EncodeAlphabet | src/main/webapp/guanxi_sp/eds/idpselect.js:1148 | the encoder writes only unreserved characters and `%` escapes |
| UriComponent.TruncatedEscapeFails | src/main/webapp/guanxi_sp/eds/idpselect.js:1124 | a `%` without two hexadecimal digits makes decoding fail |
| Catalog.MakeLocale | src/main/webapp/guanxi_sp/eds/idpselect.js:194-204 | the major language exists exactly when a '-' occurs after the first character, and is the text before it |
| Catalog.GetIdPFor | src/main/webapp/guanxi_sp/eds/idpselect.js:408-416 | the first catalog record with the entityID, or `None` exactly when no record has it |
| Catalog.FirstWithLang | src/main/webapp/guanxi_sp/eds/idpselect.js:984-1024 | the value of the first entry in a language, `None` exactly when there is none |
| Catalog.ByPreference | src/main/webapp/guanxi_sp/eds/idpselect.js:984-1024 | the entry of the first language in the preference order that some entry carries |
| Catalog.LocalizedEntry | src/main/webapp/guanxi_sp/eds/idpselect.js:984-1024 | full language, then major, then no language, then the default; `None` exactly when none of these occurs |
| Catalog.LocalizedName | src/main/webapp/guanxi_sp/eds/idpselect.js:975-982 | the localized display name, or the entityID when there is none |
| Catalog.GetIcon | src/main/webapp/guanxi_sp/eds/idpselect.js:948-969 | the first 16x16 logo in no language, the browser's, its major or the default; `None` exactly when none fits |
| Catalog.StripHostName | src/main/webapp/guanxi_sp/eds/idpselect.js:317-333 | null stays null, text without "://" is unchanged, else the rest from the first '/' after the host, or exactly the bare host when no '/' follows |
| HtmlEncode.AddMissingChar | src/main/webapp/guanxi_sp/eds/idpselect.js:1245-1250 | the character is put in front exactly when it is missing |
| HtmlEncode.IndexOfAbsent | src/main/webapp/guanxi_sp/eds/idpselect.js:1246 | the source's `indexOf(c) < 0` test means the character is absent |
| HtmlEncode.AddMissing | src/main/webapp/guanxi_sp/eds/idpselect.js:1252-1264 | all six always-encoded characters end up present; what is prepended is missing from the input and always encoded |
| HtmlEncode.AddMissingIdempotent | src/main/webapp/guanxi_sp/eds/idpselect.js:1252-1264 | adding the missing characters twice is adding them once |
| HtmlEncode.DefaultSetHead | src/main/webapp/guanxi_sp/eds/idpselect.js:193 | with the default configuration the encode set begins with the backslash |
| HtmlEncode.HasEncodingCharsAsWritten | src/main/webapp/guanxi_sp/eds/idpselect.js:1273-1283 | as written: the index of the first character that is in the set and is not the set's first character; -1 exactly when there is none |
| HtmlEncode.HasEncodingChars | src/main/webapp/guanxi_sp/eds/idpselect.js:1273-1283 | corrected: the index of the first character in the set, -1 exactly when there is none |
| HtmlEncode.AsWrittenMissesFirstChar | src/main/webapp/guanxi_sp/eds/idpselect.js:1277-1278 | as written, the set's first character is never reported; the corrected search reports it |
| HtmlEncode.AsWrittenMissesBackslash | src/main/webapp/guanxi_sp/eds/idpselect.js:1277-1278 | with the default set, a lone backslash is not reported as needing encoding |
| HtmlEncode.ReferenceOfCodeUnit | src/main/webapp/guanxi_sp/eds/idpselect.js:1304-1306 | the reference of a UTF-16 code unit is `&#x`, four hex digits and `;` |
| HtmlEncode.HTMLEncode | src/main/webapp/guanxi_sp/eds/idpselect.js:1293-1313 | the characters before the clamped hint are kept unchanged |
| HtmlEncode.EncodedSafe | src/main/webapp/guanxi_sp/eds/idpselect.js:1296-1310 | the encoded tail holds no set character except those that make up references |
| HtmlEncode.UnescapeEncodeFrom | src/main/webapp/guanxi_sp/eds/idpselect.js:1296-1310 | when '&' is in the set, reading the references back gives the encoded text |
| HtmlEncode.EncodeAfterPlain | src/main/webapp/guanxi_sp/eds/idpselect.js:1293-1313 | encoding from a hint before which no character needs it can be undone |
| HtmlEncode.HTMLEncodeRoundTrip | src/main/webapp/guanxi_sp/eds/idpselect.js:1273-1313 | encoding from the first character that needs it can be undone |
| Typeahead.Records | src/main/webapp/guanxi_sp/eds/idpselect.js:699 | one search record per catalog IdP, with its entityID |
| Typeahead.Hits | src/main/webapp/guanxi_sp/eds/typeahead.js:105-130 | exactly the records whose lower-cased name or entityID contains the lower-cased query, in catalog order |
| Typeahead.EmptyQueryMatchesAll | src/main/webapp/guanxi_sp/eds/typeahead.js:105-130 | the empty query matches every record |
| Typeahead.Possible | src/main/webapp/guanxi_sp/eds/typeahead.js:95-137 | the first `maxResults + 1` hits, one more than can be shown |
| Typeahead.GetPossible | src/main/webapp/guanxi_sp/eds/typeahead.js:95-137 | the scanning loop returns the first `maxResults + 1` hits |
| Typeahead.Initial | src/main/webapp/guanxi_sp/eds/idpselect.js:673-682 | the control starts with no highlight, hidden field "-", submit disabled |
| Typeahead.InitialWf | src/main/webapp/guanxi_sp/eds/idpselect.js:673-682 | the initial state satisfies the control's invariant |
| Typeahead.Label | src/main/webapp/guanxi_sp/eds/typeahead.js:249-268 | a row's text is the name cut to `maxchars`, or to `maxchars - 2` behind a space when an icon precedes it |
| Typeahead.Labels | src/main/webapp/guanxi_sp/eds/typeahead.js:238-273 | one row per result |
| Typeahead.Select | src/main/webapp/guanxi_sp/eds/typeahead.js:300-331 | a row under the mouse is highlighted and copied to the hidden field with submit enabled; anything else clears the highlight and disables submit |
| Typeahead.HideDrop | src/main/webapp/guanxi_sp/eds/typeahead.js:174-187 | hides the drop-down and disables submit only when no row is highlighted |
| Typeahead.HandleChange | src/main/webapp/guanxi_sp/eds/typeahead.js:209-230 | the text is kept and `ShowsSearch` holds for it: no hit or too many: empty and disabled; one hit: selected and enabled; otherwise shown with nothing highlighted |
| Typeahead.DownSelect | src/main/webapp/guanxi_sp/eds/typeahead.js:333-365 | from no highlight to row 0, else one row down, a no-op at the last row or with no results |
| Typeahead.UpSelect | src/main/webapp/guanxi_sp/eds/typeahead.js:368-388 | one row up above row 0, a no-op at row 0 or with no highlight |
| Typeahead.HandleKeyUp | src/main/webapp/guanxi_sp/eds/typeahead.js:139-154 | Escape clears the text and the drop-down shows the search for ""; a re-search key keeps the text and shows its search (`ShowsSearch`, as `HandleChange`); other keys change nothing |
| Typeahead.HandleKeyDown | src/main/webapp/guanxi_sp/eds/typeahead.js:156-172 | only the up and down arrows act |
| Typeahead.MouseDown | src/main/webapp/guanxi_sp/eds/typeahead.js:55-59 | the highlighted name is copied into the text box; highlight and hidden field unchanged |
| Typeahead.Step | src/main/webapp/guanxi_sp/eds/typeahead.js:41-88 | every handler keeps the invariant: cursor -1 or a result index, submit enabled exactly when a row is highlighted, hidden field the highlighted entityID |
| Typeahead.Run | src/main/webapp/guanxi_sp/eds/typeahead.js:41-88 | any sequence of events keeps the invariant |
| Typeahead.SubmitNamesRecord | src/main/webapp/guanxi_sp/eds/typeahead.js:300-331 | whatever the user does, an enabled submit button means the hidden field holds a catalog entityID |
| Typeahead.ArrowKeyUpKeepsState | src/main/webapp/guanxi_sp/eds/typeahead.js:139-154 | releasing an arrow key changes nothing |
| DiscoveryFeed.NewEntity | src/main/java/org/guanxi/sp/engine/service/saml2/DiscoveryEntity.java:30-33 | a new entity has no display names |
| DiscoveryFeed.AddName | src/main/java/org/guanxi/sp/engine/service/saml2/DiscoveryEntity.java:35-37 | the display name becomes a key mapped to its language; other names unchanged |
| DiscoveryFeed.ReAddOverwrites | src/main/java/org/guanxi/sp/engine/service/saml2/DiscoveryEntity.java:36 | re-adding a name overwrites its language |
| DiscoveryFeed.SameLanguageKeepsBoth | src/main/java/org/guanxi/sp/engine/service/saml2/DiscoveryEntity.java:36 | distinct names in the same language are both kept |
| DiscoveryFeed.Init | src/main/java/org/guanxi/sp/engine/service/saml2/DiscoveryFeedManager.java:29-31 | `init` leaves no entities |
| DiscoveryFeed.AddEntity | src/main/java/org/guanxi/sp/engine/service/saml2/DiscoveryFeedManager.java:40-44 | a fresh entity only for an absent id; an existing entity and its names are untouched |
| DiscoveryFeed.DeleteEntity | src/main/java/org/guanxi/sp/engine/service/saml2/DiscoveryFeedManager.java:51-55 | the id is removed if present, everything else unchanged |
| DiscoveryFeed.AddDisplayName | src/main/java/org/guanxi/sp/engine/service/saml2/DiscoveryFeedManager.java:64-68 | delegates to the registered entity; an unknown id changes nothing |
| DiscoveryFeed.AddEntityKeepsNames | src/main/java/org/guanxi/sp/engine/service/saml2/DiscoveryFeedManager.java:40-44 | adding an entity again keeps the names gathered since |
| DiscoveryFeed.DeleteUndoesAdd | src/main/java/org/guanxi/sp/engine/service/saml2/DiscoveryFeedManager.java:40-55 | deleting a freshly added id restores the feed |
| DiscoveryFeed.EntityObjects | src/main/java/org/guanxi/sp/engine/service/saml2/DiscoveryFeedManager.java:81-100 | one object per registered entity, in enumeration order, holding its name objects |
| DiscoveryFeed.Commas | src/main/java/org/guanxi/sp/engine/service/saml2/DiscoveryFeedManager.java:87-100 | appending a comma only when more parts follow is joining with commas |
| DiscoveryFeed.ToJson | src/main/java/org/guanxi/sp/engine/service/saml2/DiscoveryFeedManager.java:76-109 | the serialiser's loops produce the bracketed, comma-joined entity objects |
| DiscoveryFeed.InitJson | src/main/java/org/guanxi/sp/engine/service/saml2/DiscoveryFeedManager.java:29-109 | after `init` the document is `[]` |
| DiscoveryFeed.EveryEntityListed | src/main/java/org/guanxi/sp/engine/service/saml2/DiscoveryFeedManager.java:81-97 | every registered entityID appears verbatim in its `"entityID"` member |
| Saml.IdpMetadata | src/main/java/org/guanxi/sp/engine/service/saml2/SAML2ProfileService.java:69-78 | no manager and no metadata are the two `GuanxiException`s; otherwise the stored descriptor |
| Saml.SsoEndpoints | src/main/java/org/guanxi/sp/engine/service/generic/GenericProfileService.java:178 | the first IDPSSODescriptor's endpoints, an index error without one |
| GenericProfile.ResolveEntityId | src/main/java/org/guanxi/sp/engine/service/generic/GenericProfileService.java:73-102 | parameter, then the Guard's mapping, then the default mapping, then the discovery answer; `None` exactly when all are missing |
| GenericProfile.FirstSaml2 | src/main/java/org/guanxi/sp/engine/service/generic/GenericProfileService.java:178-188 | true exactly when an endpoint's binding is HTTP-POST or HTTP-Redirect, case-sensitively |
| GenericProfile.ProfileMetadata | src/main/java/org/guanxi/sp/engine/service/generic/GenericProfileService.java:167-174 | no manager is a `GuanxiException` whose message has an unclosed quote; no metadata is the profile services' error; otherwise the stored descriptor |
| GenericProfile.ChooseProfile | src/main/java/org/guanxi/sp/engine/service/generic/GenericProfileService.java:146-189 | no id: discovery or Shibboleth by the switch; an id: SAML2 exactly when a browser binding is offered; lookup and index errors propagate unchanged |
| GenericProfile.DiscoveryAnswerAsEntityId | src/main/java/org/guanxi/sp/engine/service/generic/GenericProfileService.java:148-152 | with discovery on, an `edsEntityID` is treated like an explicit entityID |
| GenericProfile.Gps | src/main/java/org/guanxi/sp/engine/service/generic/GenericProfileService.java:68-135 | unknown Guard: error view, context untouched; known Guard without `sessionid`: a `NullPointerException`, context untouched; otherwise registered under the engine session id, then a `GuanxiException` from the choice or the profile is the error view, any other exception escapes, and a profile's result is rendered |
| GenericProfile.UnknownIdpShowsErrorView | src/main/java/org/guanxi/sp/engine/service/generic/GenericProfileService.java:123-134 | a known Guard naming an IdP without a manager gets the error view |
| GenericProfile.ExplicitEntityIdWins | src/main/java/org/guanxi/sp/engine/service/generic/GenericProfileService.java:73-97 | an explicit `entityID` parameter wins whatever the mapping |
| GenericProfile.GuardMappingBeatsDefault | src/main/java/org/guanxi/sp/engine/service/generic/GenericProfileService.java:77-91 | a Guard's own mapping beats `__DEFAULT__` |
| Saml2Profile.ChooseEndpoint | src/main/java/org/guanxi/sp/engine/service/saml2/SAML2ProfileService.java:83-96 | the first endpoint bound to POST or Redirect ignoring case, with its canonical binding; `None` exactly when there is none |
| Saml2Profile.NewAuthnRequest | src/main/java/org/guanxi/sp/engine/service/saml2/SAML2ProfileService.java:101-109 | version 2.0, issuer the Guard, the configured ACS URL, protocol binding HTTP-POST |
| Saml2Profile.DoProfile | src/main/java/org/guanxi/sp/engine/service/saml2/SAML2ProfileService.java:61-190 | metadata and index errors propagate, no endpoint is "does not support WBSSO", an accepted endpoint always succeeds; Redirect deflates, encodes and URL-encodes request and relay state, POST only Base64-encodes |
| Saml2Profile.FirstEndpointWins | src/main/java/org/guanxi/sp/engine/service/saml2/SAML2ProfileService.java:83-92 | of two accepted endpoints the earlier is used |
| WebSso.LastPostBelow | src/main/java/org/guanxi/sp/engine/service/saml2/WebBrowserSSOService.java:114-120 | the last POST endpoint, ignoring case; Redirect endpoints never count |
| WebSso.FindPostEndpoint | src/main/java/org/guanxi/sp/engine/service/saml2/WebBrowserSSOService.java:114-120 | the overwriting loop returns the last POST endpoint |
| WebSso.Wbsso | src/main/java/org/guanxi/sp/engine/service/saml2/WebBrowserSSOService.java:63-194 | the checks in order, each with its own outcome: Guard, `sessionid` (a `NullPointerException` when missing), relay state registered, entityID, metadata, SSO descriptor (an escaping index error), POST endpoint ("profile not supported"), signing ("could not sign"); when all pass, the POST view with all three values |
| WebSso.RegisteredBeforeEntityCheck | src/main/java/org/guanxi/sp/engine/service/saml2/WebBrowserSSOService.java:80-89 | the relay state is registered even when the entityID is missing |
| WebSso.LastPostWins | src/main/java/org/guanxi/sp/engine/service/saml2/WebBrowserSSOService.java:114-120 | of two POST endpoints the later one is used |
| AuthConsumer.AcsStart | src/main/java/org/guanxi/sp/engine/service/saml2/WebBrowserSSOAuthConsumerService.java:129-172 | every case: unsolicited blank relay state and unknown session rejected with their messages; an unsolicited lookup's exception escapes and its Guard is used otherwise; a null relay state is a `NullPointerException`; any other solicited relay state goes on with the Guard under its GUARD→ENGINE key and the ENGINE→GUARD session |
| AuthConsumer.QueryFold | src/main/java/org/guanxi/sp/engine/service/saml2/WebBrowserSSOAuthConsumerService.java:314-318 | succeeds exactly when every parameter has a name and a value; the map holds the last value of each name |
| AuthConsumer.LastWinsStep | src/main/java/org/guanxi/sp/engine/service/saml2/WebBrowserSSOAuthConsumerService.java:317 | `map.put` of a later pair keeps the last-value property |
| AuthConsumer.QueryMap | src/main/java/org/guanxi/sp/engine/service/saml2/WebBrowserSSOAuthConsumerService.java:306-322 | a null query gives the empty map, otherwise the fold over the `&`-separated parameters |
| AuthConsumer.UnsolicitedGuard | src/main/java/org/guanxi/sp/engine/service/saml2/WebBrowserSSOAuthConsumerService.java:299-304 | the context entry named by the `sp` parameter, `None` when absent |
| AuthConsumer.CheckGuardSession | src/main/java/org/guanxi/sp/engine/service/saml2/WebBrowserSSOAuthConsumerService.java:380-387 | outside unsolicited mode the returned session id must equal the Guard session |
| AuthConsumer.HasFriendlyName | src/main/java/org/guanxi/sp/engine/service/saml2/WebBrowserSSOAuthConsumerService.java:566-569 | true exactly when the friendly name is present and non-empty |
| AuthConsumer.ExtraFieldsIgnored | src/main/java/org/guanxi/sp/engine/service/saml2/WebBrowserSSOAuthConsumerService.java:315-316 | for `a=b=c` the value is `b` |
| AuthConsumer.EmptyValueFails | src/main/java/org/guanxi/sp/engine/service/saml2/WebBrowserSSOAuthConsumerService.java:316 | `name=` has no field 1, so the parser fails |
| AuthConsumer.IsUnsolicited | src/main/java/org/guanxi/sp/engine/service/saml2/WebBrowserSSOAuthConsumerService.java:324-328 | a present relay state without "GUARD" or "ENGINE"; neither session renaming changes it |
| Saml.EngineSession | src/main/java/org/guanxi/sp/engine/service/generic/GenericProfileService.java:121 | the Guard session split on "GUARD" and joined with "ENGINE"; unchanged without "GUARD" |
| Saml.GuardSession | src/main/java/org/guanxi/sp/engine/service/saml2/WebBrowserSSOAuthConsumerService.java:169 | the engine session split on "ENGINE" and joined with "GUARD"; unchanged without "ENGINE" |
| AuthConsumer.SessionMungingNotInverse | src/main/java/org/guanxi/sp/engine/service/saml2/WebBrowserSSOAuthConsumerService.java:166-169 | the two session renamings are not inverse |
| ClusteredAcs.ClusterSpEntityId | src/main/java/org/guanxi/sp/engine/service/saml2/ClusteredSSOAuthConsumerService.java:100-106 | without `::` a `GuanxiException`; with it, `Ok` exactly when some field after the first is non-empty, holding the text between the first and second `::`, and an index error otherwise |
| ClusteredAcs.SecondFieldKept | src/main/java/org/guanxi/sp/engine/service/saml2/ClusteredSSOAuthConsumerService.java:102 | after trailing empty fields are dropped, field 1 exists exactly when some field after the first has text |
| ClusteredAcs.TrailingDelimiterFails | src/main/java/org/guanxi/sp/engine/service/saml2/ClusteredSSOAuthConsumerService.java:102 | every `guard::` with a plain Guard id fails on index 1 |
| ClusteredAcs.ClusterIdOfPair | src/main/java/org/guanxi/sp/engine/service/saml2/ClusteredSSOAuthConsumerService.java:100-103 | `guard::sp` names `sp` |
| ClusteredAcs.FirstEndingWith | src/main/java/org/guanxi/sp/engine/service/saml2/ClusteredSSOAuthConsumerService.java:54-67 | the first name ending with the suffix, `None` exactly when there is none |
| ClusteredAcs.UnsolicitedGuard | src/main/java/org/guanxi/sp/engine/service/saml2/ClusteredSSOAuthConsumerService.java:36-71 | a non-blank `guardid` wins; else a malformed query string is its parse error, and otherwise the first context name ending in `::` + the `sp` value; none is an error |
| ClusteredAcs.DecryptionIdentity | src/main/java/org/guanxi/sp/engine/service/saml2/ClusteredSSOAuthConsumerService.java:74-98 | a clustered id decrypts as the external SP with its stored extension exactly when that SP is in the context; an id error propagates, a missing SP is a `NullPointerException`; any other id decrypts as itself |
| SecureEndpoints.IsAaSecure | src/main/java/org/guanxi/sp/Util.java:77-79 | only the first service of the first authority counts, case-sensitively; an index error when missing |
| SecureEndpoints.IsGuardSecure | src/main/java/org/guanxi/sp/Util.java:65-69 | true exactly when the verifier or the ACS URL has five leading characters that lower-case to "https" |
| SecureEndpoints.LowerStartsHttps | src/main/java/org/guanxi/sp/Util.java:66-67 | lower-casing a URL and testing for the "https" prefix tests its first five characters one by one |
| SecureEndpoints.PodderIgnored | src/main/java/org/guanxi/sp/Util.java:65-69 | the podder URL does not affect `isGuardSecure` |
| SecureEndpoints.UpperCaseScheme | src/main/java/org/guanxi/sp/Util.java:65-79 | "HTTPS" makes a Guard secure but not an attribute authority |
| SecureEndpoints.OnlyFirstService | src/main/java/org/guanxi/sp/Util.java:77-78 | services after the first do not matter |
| X509Chain.LoadCerts | src/main/java/org/guanxi/sp/engine/X509Chain.java:253-278 | the certificates parsed before the first that fails |
| X509Chain.FindSigner | src/main/java/org/guanxi/sp/engine/X509Chain.java:291-310 | the first presented certificate whose subject is a stored one's, `None` exactly when there is none |
| X509Chain.FindNext | src/main/java/org/guanxi/sp/engine/X509Chain.java:319-335 | the first certificate with the subject, `None` exactly when there is none |
| X509Chain.WalkChain | src/main/java/org/guanxi/sp/engine/X509Chain.java:112-117 | the bounded look-up loop computes the walk |
| X509Chain.CheckElement | src/main/java/org/guanxi/sp/engine/X509Chain.java:86-121 | one element is skipped, ends the scan, or replaces the verdict |
| X509Chain.VerifyChain | src/main/java/org/guanxi/sp/engine/X509Chain.java:78-124 | the loop over the elements computes the scan from false |
| X509Chain.WalkKeepsRoot | src/main/java/org/guanxi/sp/engine/X509Chain.java:112-117 | the walk from a presented certificate always finds a certificate |
| X509Chain.ChainVerdictIsIssuerPresent | src/main/java/org/guanxi/sp/engine/X509Chain.java:112-120 | a multi-certificate verdict is true exactly when some presented certificate's subject is the signer's issuer |
| X509Chain.NoneKnown | src/main/java/org/guanxi/sp/engine/X509Chain.java:79-123 | with no known signer anywhere the verdict stays false |
| X509Chain.SingleKnownStops | src/main/java/org/guanxi/sp/engine/X509Chain.java:103-106 | a known single certificate gives true and ends the scan |
| X509Chain.LastKnownDecides | src/main/java/org/guanxi/sp/engine/X509Chain.java:85-121 | the last element with a known signer decides the verdict |
| X509Chain.ReplaceIsChainVerdict | src/main/java/org/guanxi/sp/engine/X509Chain.java:108-120 | a multi-certificate element's verdict is the issuer test |
| X509Chain.UpdateTrustStore | src/main/java/org/guanxi/sp/engine/X509Chain.java:219-224 | the alias maps to the certificate; all other aliases unchanged |
| X509Chain.UpdateOverwrites | src/main/java/org/guanxi/sp/engine/X509Chain.java:219-224 | a second update under an alias replaces the first |
| X509Chain.Collect | src/main/java/org/guanxi/sp/engine/X509Chain.java:141-148 | the parsed signing certificates, `None` exactly when one fails to parse |
| X509Chain.LoadStore | src/main/java/org/guanxi/sp/engine/X509Chain.java:132-155 | the store becomes the set of parsed signing certificates; a parse failure keeps the old store |
| MetadataLoader.X509ToPem | src/main/java/org/guanxi/sp/engine/job/hibernate/MetadataLoader.java:174-182 | the BEGIN marker, the Base64 text, the END marker, no line breaks |
| MetadataLoader.PemBody | src/main/java/org/guanxi/sp/engine/job/hibernate/MetadataLoader.java:192-200 | the text between the first BEGIN and the last END after it; `None` exactly when no framing exists |
| MetadataLoader.PemToX509 | src/main/java/org/guanxi/sp/engine/job/hibernate/MetadataLoader.java:192-201 | no framing is an `IllegalArgumentException`, else the decoded body |
| MetadataLoader.PemRoundTrip | src/main/java/org/guanxi/sp/engine/job/hibernate/MetadataLoader.java:174-201 | `pemToX509(x509ToPEM(b)) == b` given a codec that round-trips |
| MetadataLoader.NoPrefixRejected | src/main/java/org/guanxi/sp/engine/job/hibernate/MetadataLoader.java:195-198 | text without the BEGIN marker is rejected |
| MetadataLoader.Convert | src/main/java/org/guanxi/sp/engine/job/hibernate/MetadataLoader.java:134-143 | one entry per row, in order, fields copied; one bad PEM aborts everything |
| MetadataLoader.Execute | src/main/java/org/guanxi/sp/engine/job/hibernate/MetadataLoader.java:101-121 | the "hibernate" source is replaced only when loading and converting succeed; other sources untouched |
| MetadataLoader.ConvertFramed | src/main/java/org/guanxi/sp/engine/job/hibernate/MetadataLoader.java:134-201 | rows framed by `x509ToPEM` convert back to their certificates |
| RegisterGuard.X509Dn | src/main/java/org/guanxi/sp/engine/form/RegisterGuardFormController.java:177-182 | the name starts with `CN=` and the Guard id as typed |
| RegisterGuard.DnSplits | src/main/java/org/guanxi/sp/engine/form/RegisterGuardFormController.java:177-182 | without commas in the form the name splits back into CN, OU, O, L, ST, C in that order |
| RegisterGuard.MetadataDirectory | src/main/java/org/guanxi/sp/engine/form/RegisterGuardFormController.java:165 | the Guards directory, the separator, then the lower-cased id |
| RegisterGuard.GuardNames | src/main/java/org/guanxi/sp/engine/form/RegisterGuardFormController.java:165-200 | keystore, alias, metadata file and entityID all use the lower-cased id |
| RegisterGuard.CaseFoldedNames | src/main/java/org/guanxi/sp/engine/form/RegisterGuardFormController.java:165-177 | ids differing only in case share files and entityID but not the certificate name |
| RegisterGuard.AppUrl | src/main/java/org/guanxi/sp/engine/form/RegisterGuardFormController.java:476-479 | the port is left out exactly when it is "80" |
| RegisterGuard.GuardServices | src/main/java/org/guanxi/sp/engine/form/RegisterGuardFormController.java:480-482 | verifier, ACS and podder URLs under the application URL |
| RegisterGuard.RegisteredGuardSecure | src/main/java/org/guanxi/sp/engine/form/RegisterGuardFormController.java:476-482 | a new Guard is secure exactly when its scheme starts with "https" in any case |
| RegisterGuard.RequestAlgorithm | src/main/java/org/guanxi/sp/engine/form/RegisterGuardFormController.java:291-308 | rsa gives SHA256withRSA, dsa gives DSAWithSHA1, ignoring case; anything else no request |
| RegisterGuard.CertAlgorithm | src/main/java/org/guanxi/sp/engine/form/RegisterGuardFormController.java:344-347 | the certificate's algorithm is set exactly for the key types a request exists for |
| RegisterGuard.KeyTypeIgnoresCase | src/main/java/org/guanxi/sp/engine/form/RegisterGuardFormController.java:291-347 | key types equal ignoring case give the same algorithms |
| RegisterGuard.ValidityWindow | src/main/java/org/guanxi/sp/engine/form/RegisterGuardFormController.java:332-335 | from ten minutes before to twenty days after the clock reading, in milliseconds |
| RegisterGuard.WindowFitsInt | src/main/java/org/guanxi/sp/engine/form/RegisterGuardFormController.java:332-335 | the `int` constant products do not overflow |
| RegisterGuard.IssuedChain | src/main/java/org/guanxi/sp/engine/form/RegisterGuardFormController.java:356 | the chain is the issued certificate, named by the request and issued by the root, then the root |
| RegisterGuard.IssuedChainVerifies | src/main/java/org/guanxi/sp/engine/form/RegisterGuardFormController.java:356 | the issued chain passes the chain walk |
| RegisterGuard.OnSubmit | src/main/java/org/guanxi/sp/engine/form/RegisterGuardFormController.java:159-211 | a failed mkdir is the error view; otherwise names, DN and URLs as above, with a chain exactly when the key type is known and a root exists |
| Text.JavaSplit | src/main/java/org/guanxi/sp/engine/service/saml2/WebBrowserSSOAuthConsumerService.java:315-316 | Java's `split` of a literal: the fields with trailing empty ones dropped |
| Text.Lower | src/main/java/org/guanxi/sp/Util.java:65-67 | `toLowerCase` on ASCII and Latin-1 text: same length, each character lower-cased |
| Text.ReplaceAll | src/main/java/org/guanxi/sp/engine/service/saml2/SAML2ProfileService.java:66 | a string without the pattern is unchanged |
| Text.ReplaceAllSplitJoin | src/main/java/org/guanxi/sp/engine/service/saml2/SAML2ProfileService.java:66 | replacing every occurrence is splitting on the pattern and joining the fields with the replacement |
| Text.SplitJoin | src/main/webapp/guanxi_sp/eds/idpselect.js:1119-1159 | joining parts free of a one-character delimiter and splitting on it gives the parts back |
| Text.Trim | src/main/webapp/guanxi_sp/eds/idpselect.js:1118-1119 | a slice of the input with only white space cut off before and after it, and no white space at either end of the result |

## Left out

- The DOM, `document.cookie` reads and writes, the cookie expiry date, `XMLHttpRequest` loading, `focus()` and the browser glue of the widget. Only the cookie value string and the control's state record are modelled.
- The `localeCompare` sort of the catalog and the logo fitting of `getImageForIdP`. The catalog order is taken as given, and the logo fitting is floating-point.
- `setupLocals` parameter parsing. Only the language and major-language rule is kept, in `Catalog.MakeLocale`.
- `HTMLEncodeIdPData`, the loop over display names. Its own `pos > 0` test repeats the off-by-one of `hasEncodingChars`.
- JavaScript strings are modelled as sequences of code units below U+D800 or scalar values. Surrogate pairs are left out.
- `Preferences.DecodeSegment` and `Preferences.RetrieveValue` state the shape of what is read, not a decoding of arbitrary cookie text. The round trip is proved only for saved values (`Preferences.SaveRetrieve`).
- Entity-farm, servlet-context and `Hashtable` details are left out:
  - `null` keys and values;
  - `getAttribute(null)`;
  - the enumeration order, which is a parameter.
- The AuthnRequest's random ID and `IssueInstant`, the XML documents, deflate, Base64, URL encoding and signing. These are foreign; they appear as `Wire` terms or as function parameters.
- The relay-state URI parser. The query string is taken as input, and `getTargetResource` is the identity.
- The `ProfileService` wiring of `doProfile`, whose parameter lists differ between the caller and the interface. Only the decision rules are modelled.
- `ClusteredGenericProfileService` and `ClusteredAuthConsumerService` are not part of this model.
- XML encryption and decryption, `getBag`, attribute walking and `EntityConnection` calls.
- Certificates are subject and issuer names only:
  - `Principal.equals` and `getName().equals` are both string equality;
  - signature checks are left out;
  - key generation and failures inside the crypto provider, beyond an unknown key type and a missing root.
- These X509Chain members are left out:
  - `updateTrustStore(File, …)` and `updateTrustStoreFromMetadataManager`, which are keystore file I/O and a loop over `UpdateTrustStore`;
  - the `HashSet` duplicate rule over real certificates, for which a set of abstract certificates stands in.
- Guard registration leaves out the keystore and metadata files, `loadGuardMetadata`, `displayChain` and the random keystore password. `IdPMetadataImpl` is not part of this model.
- RegisterGuard.ValidityWindow: both ends come from one clock reading. The source creates two `Date` objects, which may differ by the time between the two calls.
- `MetadataLoader.load`, the database query. Its result, or its failure, is the `loaded` parameter.
- Threads and synchronisation of the Shibboleth consumer.
- Text.Lower: Java's `toLowerCase` follows the default locale and all of Unicode, and the model does neither. Under a Turkish locale "I" becomes "ı". Capitals outside ASCII and Latin-1, such as "Ω", are kept unchanged by the model. U+0130 becomes two characters in Java, so Java does not always keep the length. The same holds for JavaScript's `toLowerCase`, which ignores the locale.
- Text.EqualsIgnoreCase: Java's `equalsIgnoreCase` compares characters by both their upper- and lower-case forms over all of Unicode. So it matches "ı", "İ", "ſ" and the Kelvin sign with "i", "s" and "k". A binding spelled `…:bındings:HTTP-POST` is accepted by the source and rejected by `Saml2Profile.BrowserBinding` and `WebSso.IsPost`.
- ClusteredAcs.ClusterSpEntityId: only the default `::` delimiter is modelled. In the source the delimiter is a bean property (`setDelimiter`), and `split` reads it as a regular expression.
- RegisterGuard.OnSubmit: X.500 name parsing is not modelled. `new X500Principal` rejects a form field holding `,` or `+`, and the source then produces no chain; the model promises a chain whenever the key type is known and a root exists.
- Text.ReplaceAll: `replaceAll` reads its pattern as a regular expression. Only patterns free of metacharacters are modelled, which covers every call the engine makes ("GUARD", "ENGINE").
- GenericProfile.Gps, WebSso.Wbsso: a missing `guardid` parameter is not modelled; the Guard id is always a string. In the source a null Guard id reaches `getAttribute(null)`, whose outcome depends on the servlet container. In `gps` it also reaches `guardID.equals` (GenericProfileService.java:86), a `NullPointerException` when no `entityID` is given and a non-empty mapping is configured. A missing `sessionid` is modelled.

## Findings

| source | as written | input that shows it | evidently intended | confidence | as-written member | corrected member |
|---|---|---|---|---|---|---|
| src/main/webapp/guanxi_sp/eds/idpselect.js:1060 | the recency loop starts its output index at the pin count and stops when that index reaches the number of recent choices | two pins, `maxPreferredIdPs` 3, one recent choice: only the two pins are shown | pins, then recent choices while the list is below the maximum | not executed | Preferences.AsWrittenDropsRecentChoice | Preferences.PreferredShowsAllRecency |
| src/main/webapp/guanxi_sp/eds/idpselect.js:1278 | `pos > 0` rejects index 0, so the first character of the encode set is never reported | the default configuration puts '\\' first in the set; the name `\` is reported as clean | `pos >= 0`: any character of the set | not executed | HtmlEncode.AsWrittenMissesBackslash | HtmlEncode.HTMLEncodeRoundTrip |
