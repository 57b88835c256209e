# go-yobit: nonce counter, request signing and request construction

A Dafny model of the core of go-yobit, a Go client for the YoBit exchange's HTTP API.
It covers two parts of the client.

**The replay-protection nonce** (auth.go). It is kept as decimal text in the file
`data/nonce`. `GetAndIncrementNonce` works in four steps:
- It creates the file with the text `1` if the file is missing.
- It parses the text as a base-10 `uint64`.
- It adds one with 64-bit wrap-around and writes the decimal text of the result back.
- It returns that result.

The file is modelled by the class `Auth.NonceFile`, whose field `file: Option<string>`
holds the file's contents (`None` while the file does not exist). Each Go function
becomes a method of that class. The pure function `Auth.NextNonce` describes one call.
The lemmas about `NextNonce` and `Auth.Run` (k calls in a row) give these facts:
- the first nonce is 2;
- the file always holds the last nonce issued;
- successive nonces are consecutive and strictly increasing;
- a restart carries on from the file;
- corrupt text fails without writing anything;
- the value wraps to 0 at 2^64 - 1.

`Decimal` models strconv's `FormatUint`, `FormatInt` and `ParseUint(s, 10, 64)`, with
their round trips. `Hex` models `hex.EncodeToString` with a decoder that inverts it.

**Requests** (yobit.go). The model builds each request as a value
`Request(verb, url, headers, body)` and does not send it:
- `Tickers24`, `DepthLimited`, `Depth`, `TradesLimited` and `InfoRequest` build the
  public GET URLs.
- `Yobit.Client.CallPrivate` is the private call. It draws one nonce from the client's
  nonce file and builds the `url.Values` form step by step. It then signs the form's
  encoding and returns a POST whose body is exactly the signed text.
- `Yobit.Client.Info` replaces the cached market map. `IsMarketExists` looks markets
  up in that map.

HMAC-SHA512 and `url.Values.Encode` are library code. They are given to a client as the
constants `mac: Auth.Mac` (64 bytes out) and `encode: Form -> string`, and are left
uninterpreted.

Two consequences of the code's order of steps:
- The file is created holding `1`, and the value is incremented before it is returned
  (auth.go:48-49, 83-84). So the first nonce issued is **2**, and the file then holds the
  value just returned (`Auth.FirstNonceIsTwo`, `Auth.LastIssuedIsStored`).
- The nonce is written to the file before any request is sent (auth.go:75 runs before
  yobit.go:345). A call whose request then fails has still used up its nonce.

## Model

| member | source | states |
|---|---|---|
| `Decimal.FormatUint` | auth.go:74 | the text is canonical decimal (digits only, no leading zero except "0") and denotes n |
| `Decimal.FormatInt` | yobit.go:164 | `%d` of a Go int: canonical digits of i, preceded by "-" exactly when i is negative |
| `Decimal.FormatIntInjective` | yobit.go:164 | different limits are printed as different texts |
| `Decimal.ParseUint` | auth.go:59-62 | succeeds exactly on non-empty digit strings whose value fits in 64 bits, returns that value; empty text is a syntax error, an over-large value a range error |
| `Decimal.ParseFormat` | auth.go:59-76 | reading back the written text of n gives n |
| `Decimal.FormatParse` | auth.go:59-76 | every canonical 64-bit decimal text is the written form of its value |
| `Hex.Encode` | auth.go:91 | hex.EncodeToString: two lowercase hex characters per byte, high nibble first, length twice the input |
| `Hex.DecodeEncode` | auth.go:91 | decoding the hex text gives back the bytes |
| `Hex.EncodeInjective` | auth.go:91 | different byte strings have different hex texts |
| `Auth.SignHmacSha512` | auth.go:88-93 | the signature is 128 lowercase hex characters that decode to the 64-byte MAC of exactly the given message under the secret |
| `Auth.SignatureDeterminesMac` | auth.go:88-93 | two signatures are equal exactly when the MACs they encode are equal |
| `Auth.Increment` | auth.go:73 | uint64 increment: n + 1 below the bound, 0 at 18446744073709551615 |
| `Auth.NextNonce` | auth.go:45-86 | one call: it succeeds exactly when the initialised file parses, returns the increment of the stored value, and leaves the file holding the canonical text that reads back as the returned nonce; on a parse failure it returns that error and the file stays as initialised |
| `Auth.FirstNonceIsTwo` | auth.go:78-86 | a missing file is created with "1", so the first nonce is 2 and the file then holds "2" |
| `Auth.CorruptFileUnchanged` | auth.go:59-62 | text that is empty, has a non-digit or exceeds 64 bits makes the call fail and leaves the file as it was |
| `Auth.WrapAround` | auth.go:73 | a stored 18446744073709551615 yields nonce 0 and the file "0" |
| `Auth.TwoCallsConsecutive` | auth.go:48-49 | from a file holding n with n + 2 in range, two calls return n + 1 then n + 2 |
| `Auth.RunConsecutive` | auth.go:45-76 | from a file holding n, k calls return n + 1, ..., n + k and leave the text of n + k, while n + k is in range |
| `Auth.StrictlyIncreasing` | auth.go:45-51 | nonces of successive calls strictly increase while no wrap-around occurs |
| `Auth.LastIssuedIsStored` | auth.go:72-76 | after any run whose last call succeeded, the file holds the canonical text of the nonce returned last |
| `Auth.RestartContinues` | auth.go:53-76 | a restarted process reads only the file, so its first nonce is one more than the last nonce issued before the restart |
| `Auth.NonceFile.WriteNonce` | auth.go:66-70 | the file's whole contents become the given text |
| `Auth.NonceFile.CreateNonceFileIfNotExists` | auth.go:78-86 | an existing file is left untouched (so repeating it changes nothing); a missing one ends up holding "1" |
| `Auth.NonceFile.ReadNonce` | auth.go:53-64 | the file is initialised first, then its text is parsed base 10 as a uint64: success exactly on a 64-bit decimal, with its value |
| `Auth.NonceFile.IncrementNonce` | auth.go:72-76 | returns the uint64 increment and stores its decimal text |
| `Auth.NonceFile.GetAndIncrementNonce` | auth.go:45-51 | the returned nonce and the new file are exactly one `NextNonce` step from the old file |
| `Yobit.PublicGet` | yobit.go:312-317 | the request callPublic builds: a GET of exactly the given URL, with no headers and an empty body |
| `Yobit.Tickers24` | yobit.go:121-127 | an empty pair list is an error with no request; otherwise a GET of https://yobit.net/api/3/ticker/ followed by the pairs joined with "-" |
| `Yobit.SplitJoin` | yobit.go:125 | joining with a separator found in no element is undone by splitting on it |
| `Yobit.TickerUrlNamesPairs` | yobit.go:125-127 | the ticker URL is the ticker prefix followed by exactly the requested pairs, in order, when no pair contains "-" |
| `Yobit.InfoRequest` | yobit.go:143 | Info requests https://yobit.net/api/3/info |
| `Yobit.DepthLimited` | yobit.go:162-164 | a GET of https://yobit.net/api/3/depth/<pairs>?limit=<limit in decimal> |
| `Yobit.Depth` | yobit.go:158-160 | DepthLimited with limit 150, whose URL ends in "?limit=150" |
| `Yobit.TradesLimited` | yobit.go:175-177 | a GET of https://yobit.net/api/3/trades/<pairs>?limit=<limit in decimal> |
| `Yobit.LimitsDistinguishUrls` | yobit.go:162-177 | different limits give different depth URLs and different trades URLs |
| `Yobit.Add` | yobit.go:331 | url.Values.Add appends the value to the name's list and leaves every other name alone |
| `Yobit.AddAllAccumulates` | yobit.go:330-332 | adding the arguments appends, under each name, that name's argument values in call order; a repeated name accumulates |
| `Yobit.AddAllNames` | yobit.go:330-332 | adding the arguments adds exactly their names to the form |
| `Yobit.PrivateFormFields` | yobit.go:326-332 | the form holds the method name first under "method" and the nonce's decimal text first under "nonce" (reading back as the nonce); every other name holds exactly the caller's values in order |
| `Yobit.PrivateRequest` | yobit.go:333-343 | a POST to https://yobit.net/tapi/ whose body is the encoded form, with headers Content-type form-urlencoded, Key and Sign; the Sign value decodes to the MAC of exactly the body |
| `Yobit.SuccessiveCallsDifferInNonce` | yobit.go:325-328 | two private calls in a row put different nonce texts, n + 1 then n + 2, into their forms |
| `Yobit.Client.IsMarketExists` | yobit.go:104-107 | true exactly when the market is a key of the cached pairs |
| `Yobit.Client.Info` | yobit.go:141-156 | a decoded response replaces the market cache wholesale, so afterwards a market exists exactly when the response lists it; a decoding error is fatal and leaves the cache |
| `Yobit.Client.CallPrivate` | yobit.go:324-347 | draws exactly one nonce, advancing the nonce file as `NextNonce` does even though nothing is sent; a nonce failure ends the call with that error; otherwise the result is the signed request built from that nonce |

## Left out

- Network I/O is not modelled: `query`, the sending half of `callPublic`, `New`, `PassCloudflare`, and the Cloudflare transport. Requests are returned as values and never sent.
- URL validation in `http.NewRequest`, and the `fatal` after it (yobit.go:313-316), is not modelled. Every built URL is taken to parse, so a pair name holding a bad `%` escape or a control character yields a request here, where the Go process would exit.
- Cookie persistence (persistent.go, and `LoadCookies`/`SaveCookies`/`SetCookies`/`Release` in yobit.go) is not modelled. It is leveldb and `encoding/gob` storage with no logic of its own.
- Response decoding is not modelled: objects.go, `unmarshal` and `Offer.UnmarshalJSON` are driven by `encoding/json`. `Client.Info` receives the already-decoded response, or the decoding error.
- The private endpoints `GetInfo`, `ActiveOrders`, `OrderInfo`, `Trade`, `CancelOrder` and `TradeHistory` are not modelled separately. They only pick a method name and arguments for `callPrivate`, then decode the response.
- Floating point is not modelled: `FormatFloat` of rate and amount in `Trade`, `fee`, and the float fields of `PairInfo`.
- The `sync.Mutex` around the nonce is not modelled. `GetAndIncrementNonce` is one atomic method, so concurrent callers are not modelled.
- File-system failures of `os.Stat`, `os.Create`, `ReadFile` and `WriteFile` are not modelled. The file always reads and writes.
- A crash between creating the empty nonce file and writing "1" into it is not modelled.
- The file path `data/nonce` is not modelled: each `NonceFile` object stands for that one file.
- HMAC-SHA512 internals are left out: the MAC is the client's `mac` constant.
- The escaping and key order of `url.Values.Encode` are left out: it is the client's `encode` constant. Nothing is claimed about the body text beyond its being `encode(form)`.
- Go's conversions between `string` and `[]byte` are identities on bytes. The model's strings stand for those bytes.
- `Header.Add` canonicalises header names (it sends `Content-type` as `Content-Type`). The model keeps the names as the source writes them.
- Timing and logging are not modelled. `fatal`, `os.Exit` and `panic` become `Err` results.
- Go's `int` is taken to be 64 bits wide, as on 64-bit platforms. This is the type of the `limit` of DepthLimited and TradesLimited.
