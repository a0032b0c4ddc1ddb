# Servoy REST gateway and plugin helpers, modelled in Dafny

This project models the decision logic of the Servoy `rest_ws` servlet. The
servlet sits between HTTP and a headless Servoy client. It turns a request
`/<service>/<solution>/<form>/<arg>...` into a call of the form's `ws_read`,
`ws_create`, `ws_update`, `ws_patch` or `ws_delete` method, and it turns the
method's result into the response. The model covers these steps:

- path parsing;
- classification of request and response bodies (JSON, XML, binary, multipart, text, form post);
- header parameters such as `charset`;
- the magic-number MIME sniffer for byte-array results;
- Accept media-range matching;
- HTTP Basic authentication, with the `ws_authenticate` hook or the server's user groups;
- the argument array passed to the method;
- the status codes for missing solutions, forms and methods;
- what each verb does with the result;
- the reload flag for the client pool;
- the CORS and `Allow` headers;
- the mapping from exceptions to error responses;
- the user properties that travel in the `servoy.userproperties` header and the `servoy.userproperty.*` cookies, including the `B64p_` cookie-value codec;
- the choice of response format and charset in `sendResult`.

Three smaller plugin pieces are modelled as well:

- the CSV writer of the tab-export plugin (`createHeader`, `populateFileData`);
- the channel-listener registry of the client-manager server (register, deregister, broadcast to the other listeners);
- the OAuth redirect-URL builder.

Strings are `seq<char>`. Bytes are a `byte` newtype. Java `null` is `Option.None`.

Exceptions that the source throws are modelled as result values:

- `ParseResult.InvalidPath` stands for `IllegalArgumentException`.
- `AuthResult.Refused` stands for the two authentication exceptions.
- A `None` where the source would index out of bounds.
- `Outbound.failure` stands for the exception that ends the cookie loop of `setResponseUserProperties`. A null property value raises a `NullPointerException`, and a cookie name the container refuses raises an `IllegalArgumentException`.

Collaborators are function-valued parameters. The model never calls them; it only passes their results through. They are:

- base64 and UTF-8 decoding;
- the script method and `FunctionDefinition.exists`;
- the user directory;
- the JSON and XML serialisers;
- the servlet container's rule for valid cookie names;
- the date and number formatters;
- value-list resolution.

Where a property needs a round trip from one of them, the lemma takes it as a `requires`.

Code that changes state step by step is modelled as methods, with loops where the source loops, each proved equal to a specification function:

- the `getHeaderKey` search loop;
- the group scan;
- the argument array and its `System.arraycopy` calls;
- the `Allow` accumulation (straight-line, as in the source);
- the JSON-key and cookie loops of the user-property bridge;
- the CSV buffers;
- the registry's register and deregister (straight-line) and its broadcast loop.

The response headers and the listener registry are classes whose fields the methods update.

Modules, one per file:

- `Base`, `Strings`: Java string semantics (`split` with trailing empties dropped, `trim`, `toLowerCase`, `indexOf`);
- `RequestPath`, `HeaderParams`, `ContentKinds`, `MimeSniffer`, `AcceptNegotiation`;
- `Values`, `Authorization`, `Dispatcher`, `ResponseHeaders`, `UserProperties`, `ResultEncoding`;
- `CsvExport`, `ChannelListeners`, `OAuthRedirect`.

## Model

| member | source | states |
|---|---|---|
| RequestPath.ParseBuiltPath | com.servoy.extensions/src/com/servoy/extensions/plugins/rest_ws/servlets/RestWSServlet.java:562-576 | A path built from a service name, a solution, a form and arguments parses back to that solution, form and argument list. The segments must be non-empty and slash-free. |
| RequestPath.ShortPathRejected | com.servoy.extensions/src/com/servoy/extensions/plugins/rest_ws/servlets/RestWSServlet.java:569-573 | Fewer than service, solution and form segments is an IllegalArgumentException. |
| RequestPath.OtherServiceRejected | com.servoy.extensions/src/com/servoy/extensions/plugins/rest_ws/servlets/RestWSServlet.java:570-573 | A second segment other than the servlet's service name is rejected. |
| RequestPath.TrailingSlashIgnored | com.servoy.extensions/src/com/servoy/extensions/plugins/rest_ws/servlets/RestWSServlet.java:569 | Because Java's `split` drops trailing empty strings, a trailing `/` changes neither acceptance nor the parsed solution, form and arguments. |
| HeaderParams.GetHeaderKey | com.servoy.extensions/src/com/servoy/extensions/plugins/rest_ws/servlets/RestWSServlet.java:931-950 | The early-return loop returns the specification `HeaderKey`. |
| HeaderParams.FindParamIsFirstMatch | com.servoy.extensions/src/com/servoy/extensions/plugins/rest_ws/servlets/RestWSServlet.java:936-947 | The value comes from the first element whose lower-cased form starts with `key=`. Nothing is found exactly when no element names the key. |
| HeaderParams.AbsentParameterGivesDefault | com.servoy.extensions/src/com/servoy/extensions/plugins/rest_ws/servlets/RestWSServlet.java:933-949 | A header without the parameter yields the default. |
| HeaderParams.ElementsOfTwo | com.servoy.extensions/src/com/servoy/extensions/plugins/rest_ws/servlets/RestWSServlet.java:935 | The `"; *"` split of `<type>; <param>` gives exactly those two elements. |
| HeaderParams.ParameterAfterMediaType | com.servoy.extensions/src/com/servoy/extensions/plugins/rest_ws/servlets/RestWSServlet.java:935-945 | `<type>; key=value` yields the value, with one pair of enclosing quotes removed. |
| ContentKinds.OpenXmlIsBinary | com.servoy.extensions/src/com/servoy/extensions/plugins/rest_ws/servlets/RestWSServlet.java:855-892 | An openxml media type is BINARY, never XML, unless it also mentions json. |
| ContentKinds.XmlExactly | com.servoy.extensions/src/com/servoy/extensions/plugins/rest_ws/servlets/RestWSServlet.java:855-892 | XML is chosen if and only if "xml" occurs and neither "json" nor the openxml marker does. |
| ContentKinds.ClassifyIgnoresCase | com.servoy.extensions/src/com/servoy/extensions/plugins/rest_ws/servlets/RestWSServlet.java:857-859 | Classification depends only on the lower-cased header. |
| ContentKinds.JsonAnywhereWins | com.servoy.extensions/src/com/servoy/extensions/plugins/rest_ws/servlets/RestWSServlet.java:860-863 | Any header containing "json" is JSON, whatever follows. |
| ContentKinds.MissingHeaderFallsBackToBody | com.servoy.extensions/src/com/servoy/extensions/plugins/rest_ws/servlets/RestWSServlet.java:894-905 | A missing header gives OTHER, so the guess from the decoded body decides. |
| ContentKinds.HeaderDecidesFirst | com.servoy.extensions/src/com/servoy/extensions/plugins/rest_ws/servlets/RestWSServlet.java:894-905 | A header that classifies as anything but OTHER decides, and the body is not decoded. |
| ContentKinds.GuessSeesFirstCharOnly | com.servoy.extensions/src/com/servoy/extensions/plugins/rest_ws/servlets/RestWSServlet.java:907-922 | `<` gives XML and `{` gives JSON, only as the very first character. Anything else gives the default. |
| MimeSniffer.Header | com.servoy.extensions/src/com/servoy/extensions/plugins/rest_ws/servlets/RestWSServlet.java:1418-1419 | The inspected header is exactly 11 bytes: the data, zero-padded or truncated. |
| MimeSniffer.KnownSignatures | com.servoy.extensions/src/com/servoy/extensions/plugins/rest_ws/servlets/RestWSServlet.java:1411-1613 | The PNG, GIF8, `%PDF-1.`, CAFEBABE and PK zip magic numbers give their media types, whatever follows them. |
| MimeSniffer.NoSignatureInZeros | com.servoy.extensions/src/com/servoy/extensions/plugins/rest_ws/servlets/RestWSServlet.java:1414-1419 | Null, empty and all-zero data have no type. |
| MimeSniffer.AcIsAcad | com.servoy.extensions/src/com/servoy/extensions/plugins/rest_ws/servlets/RestWSServlet.java:1570-1576 | The two bytes "AC" are taken for `application/acad` because of the zero padding. |
| MimeSniffer.OnlyHeaderCounts | com.servoy.extensions/src/com/servoy/extensions/plugins/rest_ws/servlets/RestWSServlet.java:1418-1419 | Bytes after the eleventh never change the answer. |
| MimeSniffer.ZeroPaddingInvisible | com.servoy.extensions/src/com/servoy/extensions/plugins/rest_ws/servlets/RestWSServlet.java:1418-1419 | A short array and the same array with a zero appended are sniffed alike. |
| AcceptNegotiation.FirstNonpatternContentType | com.servoy.extensions/src/com/servoy/extensions/plugins/rest_ws/servlets/RestWSServlet.java:1376-1388 | The loop returns the specification scan `FirstNonpattern`. |
| AcceptNegotiation.FirstNonpatternIsFirst | com.servoy.extensions/src/com/servoy/extensions/plugins/rest_ws/servlets/RestWSServlet.java:1376-1388 | A hit is the first entry whose media range is `type/subtype` without `*`. A miss means no entry is. |
| AcceptNegotiation.ScansDoNotThrow | com.servoy.extensions/src/com/servoy/extensions/plugins/rest_ws/servlets/RestWSServlet.java:1355-1380 | When every entry has a media range, neither scan raises the index exception. |
| AcceptNegotiation.GetBytesContentType | com.servoy.extensions/src/com/servoy/extensions/plugins/rest_ws/servlets/RestWSServlet.java:1326-1374 | The method returns the specification `BytesContentType`. |
| AcceptNegotiation.BytesContentTypeChoice | com.servoy.extensions/src/com/servoy/extensions/plugins/rest_ws/servlets/RestWSServlet.java:1326-1374 | The result is never null. It is the sniffed type if there is one, else the first concrete Accept range, else `application/octet-stream`. |
| AcceptNegotiation.SplitMediaType | com.servoy.extensions/src/com/servoy/extensions/plugins/rest_ws/servlets/RestWSServlet.java:1392-1398 | `type/subtype` splits into exactly its two halves. |
| AcceptNegotiation.MatchHalves | com.servoy.extensions/src/com/servoy/extensions/plugins/rest_ws/servlets/RestWSServlet.java:1390-1406 | Two-part types match if and only if each pattern half is `*` or equal to the type's half ignoring case. |
| AcceptNegotiation.WildcardAndSelfMatch | com.servoy.extensions/src/com/servoy/extensions/plugins/rest_ws/servlets/RestWSServlet.java:1404-1405 | `*/*` matches every two-part type, and every type matches itself. |
| AcceptNegotiation.MalformedNeverMatches | com.servoy.extensions/src/com/servoy/extensions/plugins/rest_ws/servlets/RestWSServlet.java:1398-1402 | A type without `/` matches nothing. |
| Authorization.FindGroupMatch | com.servoy.extensions/src/com/servoy/extensions/plugins/rest_ws/servlets/RestWSServlet.java:807-823 | The nested scan finds a match if and only if some user group equals some trimmed authorized group. |
| Authorization.CheckAuthorization | com.servoy.extensions/src/com/servoy/extensions/plugins/rest_ws/servlets/RestWSServlet.java:739-827 | The method returns the specification `Authorize`. |
| Authorization.OpenWhenUnprotected | com.servoy.extensions/src/com/servoy/extensions/plugins/rest_ws/servlets/RestWSServlet.java:744-748 | With no authorized groups and no `ws_authenticate`, access is open and the result is null. |
| Authorization.AccessNeedsCredentials | com.servoy.extensions/src/com/servoy/extensions/plugins/rest_ws/servlets/RestWSServlet.java:751-783 | A protected form is entered only with a Basic header whose user and password are both non-blank. |
| Authorization.BasicCredentialsDecoded | com.servoy.extensions/src/com/servoy/extensions/plugins/rest_ws/servlets/RestWSServlet.java:756-767 | The scheme matches in any letter case. The user ends at the first `:`, and the password, which may contain `:`, is the rest. |
| Authorization.HookDecides | com.servoy.extensions/src/com/servoy/extensions/plugins/rest_ws/servlets/RestWSServlet.java:786-796 | null, false and undefined refuse with 401. true grants with a null result. Any other value is handed on. |
| Authorization.HookIgnoresDirectory | com.servoy.extensions/src/com/servoy/extensions/plugins/rest_ws/servlets/RestWSServlet.java:786-798 | When the hook exists, the user directory is never consulted. |
| Authorization.DirectoryDecides | com.servoy.extensions/src/com/servoy/extensions/plugins/rest_ws/servlets/RestWSServlet.java:798-826 | An unknown user gets 401 with the user name as realm. A known user passes if and only if a group matches, and otherwise gets 403. |
| Dispatcher.MethodName | com.servoy.extensions/src/com/servoy/extensions/plugins/rest_ws/servlets/RestWSServlet.java:106-110 | Every verb calls a `ws_` method. |
| Dispatcher.MethodNamesDistinct | com.servoy.extensions/src/com/servoy/extensions/plugins/rest_ws/servlets/RestWSServlet.java:106-111 | Distinct verbs call distinct methods, and no verb calls the `ws_authenticate` hook. |
| Dispatcher.PoolKeysDistinct | com.servoy.extensions/src/com/servoy/extensions/plugins/rest_ws/servlets/RestWSServlet.java:236-238 | For names without `:`, debug and nodebug pool keys never collide, and neither do those of different solutions. |
| Dispatcher.ExistsFailure | com.servoy.extensions/src/com/servoy/extensions/plugins/rest_ws/servlets/RestWSServlet.java:629-641 | No solution gives 503, no form gives 404 and no method gives 405. There is no failure if and only if the method is found. |
| Dispatcher.ParameterValues | com.servoy.extensions/src/com/servoy/extensions/plugins/rest_ws/servlets/RestWSServlet.java:678 | Each query parameter's values are passed as strings, in order. |
| Dispatcher.BuildArgs | com.servoy.extensions/src/com/servoy/extensions/plugins/rest_ws/servlets/RestWSServlet.java:659-685 | The argument list is null when nothing is passed, else the filled array, and equals `ArgList`. |
| Dispatcher.FillArgs | com.servoy.extensions/src/com/servoy/extensions/plugins/rest_ws/servlets/RestWSServlet.java:661-684 | The filled array is the fixed arguments, then the path arguments as strings, then the map argument if any. |
| Dispatcher.CopyInto | com.servoy.extensions/src/com/servoy/extensions/plugins/rest_ws/servlets/RestWSServlet.java:667-672 | `System.arraycopy` puts the source at the offset and leaves the rest of the array unchanged. |
| Dispatcher.ArgListNull | com.servoy.extensions/src/com/servoy/extensions/plugins/rest_ws/servlets/RestWSServlet.java:659-660 | The array is null if and only if there are no fixed arguments, no path arguments and no query parameters, even when authentication returned a result. |
| Dispatcher.ArgListShape | com.servoy.extensions/src/com/servoy/extensions/plugins/rest_ws/servlets/RestWSServlet.java:661-684 | A non-null array has length fixed + path + (parameters or auth result ? 1 : 0). It holds the fixed arguments, then the path arguments as strings, then the parameter map last. |
| Dispatcher.ParameterMapContents | com.servoy.extensions/src/com/servoy/extensions/plugins/rest_ws/servlets/RestWSServlet.java:677-682 | The map holds every parameter. `ws_authenticate` is `[auth result]` exactly when there is one. |
| Dispatcher.CalledOnlyWhenAllowed | com.servoy.extensions/src/com/servoy/extensions/plugins/rest_ws/servlets/RestWSServlet.java:614-697 | The method is called if and only if the path parses, authorization allows and the method exists. It is called with the verb's method and the built arguments. |
| Dispatcher.ActionFor | com.servoy.extensions/src/com/servoy/extensions/plugins/rest_ws/servlets/RestWSServlet.java:199-468 | When a verb sends a result, it sends the method's result unchanged. |
| Dispatcher.NotFoundRule | com.servoy.extensions/src/com/servoy/extensions/plugins/rest_ws/servlets/RestWSServlet.java:200-464 | 404 comes exactly from null on GET and from false on PUT, PATCH and DELETE, never on POST. DELETE never sends a body. |
| Dispatcher.BodyCheckAccepts | com.servoy.extensions/src/com/servoy/extensions/plugins/rest_ws/servlets/RestWSServlet.java:346-357 | A body reaches the method only when it is non-empty and of a known kind. A header kind other than OTHER is taken as it is. |
| Dispatcher.ReloadAfter | com.servoy.extensions/src/com/servoy/extensions/plugins/rest_ws/servlets/RestWSServlet.java:194-217 | The reload flag is raised if and only if it was set or the execution failed outside solution code. It is never lowered. |
| ResponseHeaders.SetServiceHeaders | com.servoy.extensions/src/com/servoy/extensions/plugins/rest_ws/servlets/RestWSServlet.java:150-178 | The header writes of `service` produce the specification `ServiceHeaders` over the previous headers. |
| ResponseHeaders.ServiceHeadersContents | com.servoy.extensions/src/com/servoy/extensions/plugins/rest_ws/servlets/RestWSServlet.java:152-178 | Allow-Origin is the Origin, or `*` without one. Allow-Methods is set only on a pre-flight. The expose list ends with the user-properties header and starts with the nodebug one exactly when debugging is off. Allow-Headers echoes the request. |
| ResponseHeaders.AllowHeader | com.servoy.extensions/src/com/servoy/extensions/plugins/rest_ws/servlets/RestWSServlet.java:504-528 | The `retval` accumulation equals the `, `-join of `AllowTokens`. |
| ResponseHeaders.AllowListsExistingVerbs | com.servoy.extensions/src/com/servoy/extensions/plugins/rest_ws/servlets/RestWSServlet.java:504-526 | TRACE, OPTIONS and HEAD are always listed. Each other verb is listed if and only if its method exists. HEAD follows GET. |
| ResponseHeaders.OptionsAllowHeaders | com.servoy.extensions/src/com/servoy/extensions/plugins/rest_ws/servlets/RestWSServlet.java:530-539 | The OPTIONS Allow-Headers value always mentions `Allow`. |
| ResponseHeaders.OptionsHeadersKeepRequest | com.servoy.extensions/src/com/servoy/extensions/plugins/rest_ws/servlets/RestWSServlet.java:530-540 | The announced headers are kept in front. The expose list extends them and ends with the user-properties header. |
| ResponseHeaders.DoubleIntValue | com.servoy.extensions/src/com/servoy/extensions/plugins/rest_ws/servlets/RestWSServlet.java:278-281 | A thrown number becomes a status within the 32-bit range. |
| ResponseHeaders.DoubleIntValueTruncates | com.servoy.extensions/src/com/servoy/extensions/plugins/rest_ws/servlets/RestWSServlet.java:280 | In range, `intValue` truncates toward zero, and whole numbers are kept. |
| ResponseHeaders.HandleExceptionStatus | com.servoy.extensions/src/com/servoy/extensions/plugins/rest_ws/servlets/RestWSServlet.java:242-302 | Each failure maps to its status: 401, 403, 503, 400, the service code, the thrown number or array status, or 500. Only 401 carries the realm challenge and only a thrown array carries a body. A thrown array shorter than two elements throws. |
| ResponseHeaders.ErrorBodyType | com.servoy.extensions/src/com/servoy/extensions/plugins/rest_ws/servlets/RestWSServlet.java:1677-1698 | An error body is typed JSON if and only if it starts with `{`, and XML if and only if it starts with `<`. No body means no type. |
| UserProperties.EncodeCookieValue | com.servoy.extensions/src/com/servoy/extensions/plugins/rest_ws/servlets/RestWSServlet.java:1646-1657 | Every encoded value carries the `B64p_` marker. |
| UserProperties.EmptyValueLostAsWritten | com.servoy.extensions/src/com/servoy/extensions/plugins/rest_ws/servlets/RestWSServlet.java:1621-1641 | As written, the encoding of "" decodes to null. |
| UserProperties.DecodersAgree | com.servoy.extensions/src/com/servoy/extensions/plugins/rest_ws/servlets/RestWSServlet.java:1621-1641 | Where the source's decoder gives a string, the corrected decoder gives the same one. |
| UserProperties.CookieValueRoundTrip | com.servoy.extensions/src/com/servoy/extensions/plugins/rest_ws/servlets/RestWSServlet.java:1621-1657 | Decoding undoes encoding for every single-line value, including "". |
| UserProperties.FirstLineOnly | com.servoy.extensions/src/com/servoy/extensions/plugins/rest_ws/servlets/RestWSServlet.java:1628-1629 | Of a multi-line value only the first line comes back, from the source's decoder and from the corrected one. |
| UserProperties.PlainValuesPassThrough | com.servoy.extensions/src/com/servoy/extensions/plugins/rest_ws/servlets/RestWSServlet.java:1623-1640 | A value without the marker is returned unchanged. |
| UserProperties.ReadCookieProperties | com.servoy.extensions/src/com/servoy/extensions/plugins/rest_ws/servlets/RestWSServlet.java:981-995 | The cookie loop fills the map `CookieProperties`, whose values come from the source's decoder, null included. |
| UserProperties.LastCookieWins | com.servoy.extensions/src/com/servoy/extensions/plugins/rest_ws/servlets/RestWSServlet.java:985-992 | A key is present if and only if some cookie has the prefix followed by that key. Its value is what the source's decoder gives for the last such cookie, which is null for an empty decoded text. |
| UserProperties.SetApplicationUserProperties | com.servoy.extensions/src/com/servoy/extensions/plugins/rest_ws/servlets/RestWSServlet.java:957-998 | The method computes `InboundProperties`: the header's JSON object (its values never null), else the cookies as the source decodes them, else nothing. |
| UserProperties.HeaderWins | com.servoy.extensions/src/com/servoy/extensions/plugins/rest_ws/servlets/RestWSServlet.java:959-980 | With the header present, the cookies do not matter. |
| UserProperties.PrefixedNames | com.servoy.extensions/src/com/servoy/extensions/plugins/rest_ws/servlets/RestWSServlet.java:988-1030 | A cookie name is the prefix plus a key if and only if stripping the prefix gives that key. |
| UserProperties.SetResponseUserProperties | com.servoy.extensions/src/com/servoy/extensions/plugins/rest_ws/servlets/RestWSServlet.java:1006-1038 | The method produces `OutboundProperties`: nothing for an empty map, else the header and the cookies added before the loop stops. It stops at the first null value or refused cookie name. |
| UserProperties.AddCookies | com.servoy.extensions/src/com/servoy/extensions/plugins/rest_ws/servlets/RestWSServlet.java:1027-1036 | The loop adds `CookiesWritten`, the cookies of the keys before the first fault, and ends with `CookieLoopFault`. That is `OtherFailure` for a null value and `IllegalArgument` for a refused name. |
| UserProperties.OutboundShape | com.servoy.extensions/src/com/servoy/extensions/plugins/rest_ws/servlets/RestWSServlet.java:1008-1036 | An empty map emits nothing. Otherwise there are at most as many cookies as properties, all with the same path and the request's secure flag. The loop fails exactly when some property is null or has a refused name, and without a failure there is one cookie per property. |
| UserProperties.OutboundFailureStatus | com.servoy.extensions/src/com/servoy/extensions/plugins/rest_ws/servlets/RestWSServlet.java:1027-1036 | On failure, the cookies of the earlier keys are already added. `handleException` answers 500 when the faulty value is null, and otherwise 400 for the refused name. |
| UserProperties.OutboundCookieNames | com.servoy.extensions/src/com/servoy/extensions/plugins/rest_ws/servlets/RestWSServlet.java:1028-1030 | Every cookie is named prefix plus a key of the map. When the loop runs to the end, every key has its cookie. |
| UserProperties.NullValueFails | com.servoy.extensions/src/com/servoy/extensions/plugins/rest_ws/servlets/RestWSServlet.java:1644-1657 | With every name valid, the loop fails exactly when some value is null, and then with the `NullPointerException` (`OtherFailure`). |
| UserProperties.CookieValueReadBack | com.servoy.extensions/src/com/servoy/extensions/plugins/rest_ws/servlets/RestWSServlet.java:1621-1657 | The source's decoder gives an encoded single-line value back unchanged, except "", which comes back as null. |
| UserProperties.CookiesRoundTrip | com.servoy.extensions/src/com/servoy/extensions/plugins/rest_ws/servlets/RestWSServlet.java:981-1036 | For non-null, single-line values under valid names, the cookie loop runs to the end. The cookies read back with the same keys, each non-empty value unchanged and "" as null. Without empty values the map read back is the map written. |
| UserProperties.EmptyPropertyFailsNextResponse | com.servoy.extensions/src/com/servoy/extensions/plugins/rest_ws/servlets/RestWSServlet.java:981-1036 | A property set to "" comes back as null. If the client hands that map back unchanged, the next response's cookie loop fails with the `NullPointerException`. |
| ResultEncoding.CharsetPrecedence | com.servoy.extensions/src/com/servoy/extensions/plugins/rest_ws/servlets/RestWSServlet.java:1172-1181 | The charset comes from Accept, else Content-Type, else UTF-8. |
| ResultEncoding.ResponseKind | com.servoy.extensions/src/com/servoy/extensions/plugins/rest_ws/servlets/RestWSServlet.java:1197 | OTHER is answered only when the default is OTHER. |
| ResultEncoding.ResponseKindIsRequestContentType | com.servoy.extensions/src/com/servoy/extensions/plugins/rest_ws/servlets/RestWSServlet.java:894-905 | The format is `getRequestContentType` on Accept without a body. |
| ResultEncoding.BinaryRefused | com.servoy.extensions/src/com/servoy/extensions/plugins/rest_ws/servlets/RestWSServlet.java:1197-1203 | A formatted answer is 415 if and only if the negotiated kind is BINARY. |
| ResultEncoding.FormattedAnswer | com.servoy.extensions/src/com/servoy/extensions/plugins/rest_ws/servlets/RestWSServlet.java:1197-1257 | A sent answer's media type ends with `;charset=<charset>` and its text is encoded in that charset. |
| ResultEncoding.FramingByKind | com.servoy.extensions/src/com/servoy/extensions/plugins/rest_ws/servlets/RestWSServlet.java:1207-1246 | JSON is wrapped in a non-empty callback. XML gets the prolog. Multipart and form post give empty JSON. Text is the result's string. |
| ResultEncoding.ValuesAreFormatted | com.servoy.extensions/src/com/servoy/extensions/plugins/rest_ws/servlets/RestWSServlet.java:1167-1257 | Without a preset type, a value that is not a byte array is sent in the negotiated format and charset. |
| ResultEncoding.BytesUntypedAsWritten | com.servoy.extensions/src/com/servoy/extensions/plugins/rest_ws/servlets/RestWSServlet.java:1190-1255 | As written, a PNG byte array is typed `image/png` but sent without any Content-Type. |
| ResultEncoding.BytesSentTyped | com.servoy.extensions/src/com/servoy/extensions/plugins/rest_ws/servlets/RestWSServlet.java:1190-1194 | Corrected: a byte array is sent unchanged with its negotiated type. It differs from the source only in that header. |
| ResultEncoding.VersionsAgreeOnValues | com.servoy.extensions/src/com/servoy/extensions/plugins/rest_ws/servlets/RestWSServlet.java:1183-1257 | The corrected and as-written versions agree on every result that is not a byte array. |
| CsvExport.CreateHeader | com.servoy.extensions/src/com/servoy/extensions/plugins/tabxport/ExportSpecifyFilePanel.java:186-198 | The loop builds `HeaderLine`: the quoted labels joined by `sep`, then a newline. |
| CsvExport.HeaderShape | com.servoy.extensions/src/com/servoy/extensions/plugins/tabxport/ExportSpecifyFilePanel.java:189-196 | No labels give exactly `"\n"`. Otherwise the header starts with `"` + the first label and ends with the last label + `"\n`. |
| CsvExport.HeaderFields | com.servoy.extensions/src/com/servoy/extensions/plugins/tabxport/ExportSpecifyFilePanel.java:189-195 | With a one-character separator no label contains, the header splits back into the quoted labels. |
| CsvExport.UndoubleDoubled | com.servoy.extensions/src/com/servoy/extensions/plugins/tabxport/ExportSpecifyFilePanel.java:284 | Reading a field with doubled quotes back gives the original text. |
| CsvExport.RealValueIndexOf | com.servoy.extensions/src/com/servoy/extensions/plugins/tabxport/ExportSpecifyFilePanel.java:275 | The index is the first real value equal to the raw value, or -1 if there is none. |
| CsvExport.EmptyCells | com.servoy.extensions/src/com/servoy/extensions/plugins/tabxport/ExportSpecifyFilePanel.java:281-317 | Null and the empty String are written as nothing, in both versions. |
| CsvExport.TextCell | com.servoy.extensions/src/com/servoy/extensions/plugins/tabxport/ExportSpecifyFilePanel.java:281-317 | A non-empty String is enclosed in quotes, and its inner text reads back to the String. Both versions agree on it. |
| CsvExport.DateCell | com.servoy.extensions/src/com/servoy/extensions/plugins/tabxport/ExportSpecifyFilePanel.java:286-321 | An unformatted Date is its string form in one pair of quotes. |
| CsvExport.DisplayValueWritten | com.servoy.extensions/src/com/servoy/extensions/plugins/tabxport/ExportSpecifyFilePanel.java:273-280 | A raw value the value list knows is written as its display element, taken from the first match, in both versions. |
| CsvExport.FormattedNumberHalfQuoted | com.servoy.extensions/src/com/servoy/extensions/plugins/tabxport/ExportSpecifyFilePanel.java:281-321 | As written, a Number formatted as `1.5` is written `1.5"`. The corrected cell writes `1.5`. |
| CsvExport.CellQuotesPaired | com.servoy.extensions/src/com/servoy/extensions/plugins/tabxport/ExportSpecifyFilePanel.java:281-321 | Corrected: a cell adds either no quotes or one on each side, exactly for a non-empty String or a Date. |
| CsvExport.CellVersionsAgree | com.servoy.extensions/src/com/servoy/extensions/plugins/tabxport/ExportSpecifyFilePanel.java:281-321 | Where no pattern applies to a Date or Number, the as-written and corrected cells are equal. |
| CsvExport.RuntimeValueLists | com.servoy.extensions/src/com/servoy/extensions/plugins/tabxport/ExportSpecifyFilePanel.java:251-265 | There is one slot per column, and every slot is empty without an application or list names. |
| CsvExport.PopulateFileData | com.servoy.extensions/src/com/servoy/extensions/plugins/tabxport/ExportSpecifyFilePanel.java:248-327 | The nested loops build `FileData`: one line per record in foundset order, each line the cells as written joined by `sep`, then a newline. |
| CsvExport.HalfQuotedInExport | com.servoy.extensions/src/com/servoy/extensions/plugins/tabxport/ExportSpecifyFilePanel.java:281-321 | An export of one Number column whose pattern gives `1.5` is `1.5"` and a newline, as the code writes it. |
| CsvExport.FileDataAppend | com.servoy.extensions/src/com/servoy/extensions/plugins/tabxport/ExportSpecifyFilePanel.java:267-325 | Exporting two runs of records is exporting them one after the other, so record order is kept. |
| CsvExport.OneLinePerRecord | com.servoy.extensions/src/com/servoy/extensions/plugins/tabxport/ExportSpecifyFilePanel.java:267-325 | When no line holds a newline of its own, the output has exactly one newline per record. |
| CsvExport.RowFields | com.servoy.extensions/src/com/servoy/extensions/plugins/tabxport/ExportSpecifyFilePanel.java:270-323 | With a one-character separator no cell contains, a line splits back into its cells, so there is one separator between consecutive cells. |
| ChannelListeners.RemoveFirst | com.servoy.extensions/src/com/servoy/extensions/plugins/clientmanager/ClientManagerServer.java:127 | `list.remove` shortens the list by one if the element is present and changes nothing otherwise. |
| ChannelListeners.RemoveFirstIsFirst | com.servoy.extensions/src/com/servoy/extensions/plugins/clientmanager/ClientManagerServer.java:127 | It is the first occurrence that is removed. |
| ChannelListeners.RemoveFirstOfSnoc | com.servoy.extensions/src/com/servoy/extensions/plugins/clientmanager/ClientManagerServer.java:117-127 | Removing a just-appended new element restores the list. |
| ChannelListeners.RegistryStaysWellKept | com.servoy.extensions/src/com/servoy/extensions/plugins/clientmanager/ClientManagerServer.java:107-137 | Register and deregister keep every channel's list non-empty and holding only that channel's listeners. |
| ChannelListeners.DeregisterUndoesRegister | com.servoy.extensions/src/com/servoy/extensions/plugins/clientmanager/ClientManagerServer.java:107-137 | Registering a new listener and deregistering it gives back the registry. |
| ChannelListeners.ChannelRegistry.RegisterChannelListener | com.servoy.extensions/src/com/servoy/extensions/plugins/clientmanager/ClientManagerServer.java:107-118 | The listener is appended to its channel's list, which is created when missing. Other channels are unchanged. |
| ChannelListeners.ChannelRegistry.DeregisterChannelListener | com.servoy.extensions/src/com/servoy/extensions/plugins/clientmanager/ClientManagerServer.java:121-137 | The first equal listener is removed and an emptied channel is dropped. An unknown channel changes nothing. |
| ChannelListeners.ChannelRegistry.BroadcastMessage | com.servoy.extensions/src/com/servoy/extensions/plugins/clientmanager/ClientManagerServer.java:140-159 | The loop makes exactly the calls `Deliveries`, one per other listener, in list order. |
| ChannelListeners.BroadcastReachesOthers | com.servoy.extensions/src/com/servoy/extensions/plugins/clientmanager/ClientManagerServer.java:143-158 | Every call goes to a listener of the sender's channel other than the sender, with the sender's name and the message. Every such listener gets one. |
| ChannelListeners.RegisteredListenerHears | com.servoy.extensions/src/com/servoy/extensions/plugins/clientmanager/ClientManagerServer.java:107-158 | After registering, a listener receives broadcasts from the other members of its channel. |
| OAuthRedirect.RedirectUrl | com.servoy.extensions/src/com/servoy/extensions/plugins/oauth/OAuthProvider.java:134-140 | The URL starts with the server URL and ends with solution + `/m/` + callback. |
| OAuthRedirect.OneSlashBeforeSolutions | com.servoy.extensions/src/com/servoy/extensions/plugins/oauth/OAuthProvider.java:137 | Exactly one `/` precedes `solutions/`, and a server URL with or without a trailing `/` gives the same result. |
| OAuthRedirect.RedirectLength | com.servoy.extensions/src/com/servoy/extensions/plugins/oauth/OAuthProvider.java:134-140 | The length is the sum of the parts plus the slash when one is added. |
| OAuthRedirect.CallbackReadBack | com.servoy.extensions/src/com/servoy/extensions/plugins/oauth/OAuthProvider.java:138 | The callback method is the tail of the URL, after the fixed front. |

## Left out

- Servlet and stream I/O are left out: reading the body (`getBody`), writing bytes, `setContentLength`, and the dispatch of `HttpServlet.service`. The model returns the response status, headers and body as values.
- The headless-client pool (`getClient`, `releaseClient`) is not modelled. Only the pool key and the reload flag passed back are.
- The script engine, `FunctionDefinition`, the JSON/XML serialisers, `XML.toJSONObject`, base64 and charset decoding are collaborators. They are function-valued parameters, and round trips they must satisfy are preconditions of the lemmas that use them.
- The `ws_response_headers` call and `addHeaderToResponse` (RestWSServlet.java:643-657, 705-737) are not modelled. They copy solution-provided headers to the response and contain no rule beyond the shape of those values.
- `decodeContent`, `getMultipartContent` and `parseQueryString` (RestWSServlet.java:1040-1150) are not modelled. They are MIME multipart and form decoding by foreign libraries, and the model passes the decoded body as a value.
- Logging (`plugin.log`, `Debug.error`) carries no behaviour and is not modelled.
- JavaScript numbers are modelled as reals, not IEEE doubles. `Double.intValue` is written out as truncation with saturation at the 32-bit bounds; NaN is not modelled.
- `RestWSPlugin.WEBSERVICE_NAME` is not part of this model. The cookie path takes the service name as a parameter.
- `HashMap` iteration order is not modelled. The order in which user properties are written is a parameter that enumerates the keys once each.
- `toLowerCase` and `equalsIgnoreCase` are modelled on ASCII letters. `trim` strips every character up to U+0020 at both ends, as Java's does.
- `getBytes(charset)` is not modelled. The text is returned together with the charset it is to be encoded in.
- Date and number formatting (`SimpleDateFormat`, `DecimalFormat`) and `ComponentFactory` value-list resolution are collaborators. A formatter that throws is an absent result, and the cell keeps its value.
- `Utils.stringReplace` is modelled as replacing every quote from left to right.
- Object equality of `BroadcastInfo` is modelled as value equality of name, channel and broadcaster.
- The concurrency of `ClientManagerServer` is not modelled: `putIfAbsent`, `CopyOnWriteArrayList` and the remove-then-re-add race guard. The registry is sequential, and a `RemoteException` from a listener does not stop the broadcast, so every call is listed.
- The other remote pass-throughs of `ClientManagerServer` and `getApiInstance`/`getOAuthService` of `OAuthProvider` are not modelled. They forward to the server or build library objects.
- ResponseHeaders.AllowTokens lists `HEAD` right after `GET`, in the order of RestWSServlet.java:504-510. The order of the tokens is not otherwise promised.
- ResultEncoding.SendResult is the corrected sender of the byte-array finding below; SendResultAsWritten is the source's, and BytesSentTyped proves the two differ only in the Content-Type of a byte array.
- UserProperties.CookieValueRoundTrip and CsvExport.CellQuotesPaired state the corrected halves of the findings below; the servlet and export models themselves use the decoder and the cell as written.
- UserProperties.EncodeCookieValue encodes every value (RestWSServlet.java:1650), including values that would be safe as plain cookie tokens. The `UnsupportedEncodingException` fallback of `Utils_encodeCookieValue` cannot happen for UTF-8 and is not modelled.

## Findings

| source | as written | input that shows it | evidently intended | confidence | as-written member | corrected member |
|---|---|---|---|---|---|---|
| com.servoy.extensions/src/com/servoy/extensions/plugins/rest_ws/servlets/RestWSServlet.java:1621-1641 | the decoded text is read with `readLine()`, which returns null for an empty stream | a user property whose value is "" is written as the cookie value `B64p_` and read back as null | decode(encode(v)) == v for every single-line v, "" included | not executed | UserProperties.EmptyValueLostAsWritten | UserProperties.CookieValueRoundTrip |
| com.servoy.extensions/src/com/servoy/extensions/plugins/rest_ws/servlets/RestWSServlet.java:1190-1255 | the media type of a byte-array result is computed but `setHeader("Content-Type", ...)` is only reached on the serialised branch | a method returns a PNG byte array; `image/png` is computed and never sent | the byte array goes out with the computed Content-Type | not executed | ResultEncoding.BytesUntypedAsWritten | ResultEncoding.BytesSentTyped |
| com.servoy.extensions/src/com/servoy/extensions/plugins/tabxport/ExportSpecifyFilePanel.java:286-321 | the opening quote is decided before formatting, the closing quote after it, when a formatted Number has become a String | a Number cell with a format pattern that gives `1.5` is written `1.5"` | quotes come in pairs, so the formatted number is written `1.5` | not executed | CsvExport.FormattedNumberHalfQuoted | CsvExport.CellQuotesPaired |
