/** The YoBit client: the request each endpoint would send, built instead of sent.

    Public endpoints are GET requests under https://yobit.net/api/3/. Private calls are
    POST requests to https://yobit.net/tapi/ whose form body carries the method name, a
    fresh nonce and the caller's arguments, signed with HMAC-SHA512 under the secret. */
module Yobit {
  import opened Wrappers
  import opened Decimal
  import Hex
  import Auth

  const URL := "https://yobit.net"
  const API_VERSION := "3"
  const API_BASE := URL + "/api/"
  const API_TRADE := URL + "/tapi/"

  /** The limit Depth asks for. */
  const DEFAULT_DEPTH_LIMIT: Int64 := 150

  /** ApiCredential: the public key and the signing secret. */
  datatype Credential = Credential(key: string, secret: string)

  /** The integer fields of a market's PairInfo; its float fields are not modelled. */
  datatype PairInfo = PairInfo(decimalPlaces: nat, hidden: nat)

  datatype InfoResponse = InfoResponse(serverTime: int, pairs: map<string, PairInfo>)

  datatype Header = Header(name: string, value: string)

  /** An HTTP request as http.NewRequest plus Header.Add would build it; headers in the
      order they are added. */
  datatype Request = Request(verb: string, url: string, headers: seq<Header>, body: string)

  /** What ends a call: `fatal` with its message, or the nonce read's panic. */
  datatype Error = Fatal(message: string) | NoncePanic(cause: NumError)

  /** callPublic's request: a GET without body or headers. */
  function PublicGet(url: string): (r: Request)
    ensures r.verb == "GET" && r.url == url && r.headers == [] && r.body == ""
  {
    Request("GET", url, [], "")
  }

  // ---------------------------------------------------------------------------------
  // Public endpoints

  /** strings.Join. */
  function Join(elems: seq<string>, sep: string): string {
    if |elems| == 0 then ""
    else if |elems| == 1 then elems[0]
    else elems[0] + sep + Join(elems[1..], sep)
  }

  /** The pieces of s between occurrences of c: the reading Join(_, [c]) is meant to
      admit. */
  function Split(s: string, c: char): (parts: seq<string>)
    ensures |parts| > 0
  {
    if s == [] then [""]
    else
      var rest := Split(s[1..], c);
      if s[0] == c then [""] + rest else [[s[0]] + rest[0]] + rest[1..]
  }

  lemma {:induction false} SplitWithout(p: string, c: char)
    requires c !in p
    ensures Split(p, c) == [p]
  {
    if p != [] {
      SplitWithout(p[1..], c);
      assert [p[0]] + p[1..] == p;
    }
  }

  lemma {:induction false} SplitAfter(p: string, c: char, t: string)
    requires c !in p
    ensures Split(p + [c] + t, c) == [p] + Split(t, c)
  {
    if p == [] {
      assert (p + [c] + t)[1..] == t;
    } else {
      assert (p + [c] + t)[1..] == p[1..] + [c] + t;
      SplitAfter(p[1..], c, t);
      assert [p[0]] + p[1..] == p;
    }
  }

  /** Joining with a separator that occurs in no element can be undone by splitting. */
  lemma {:induction false} SplitJoin(elems: seq<string>, c: char)
    requires |elems| > 0 && forall i :: 0 <= i < |elems| ==> c !in elems[i]
    ensures Split(Join(elems, [c]), c) == elems
  {
    if |elems| == 1 {
      SplitWithout(elems[0], c);
    } else {
      SplitJoin(elems[1..], c);
      SplitAfter(elems[0], c, Join(elems[1..], [c]));
      assert [elems[0]] + elems[1..] == elems;
    }
  }

  /** Tickers24: an empty pair list is fatal and issues no request; otherwise a GET of
      the ticker URL with the pairs joined by "-". */
  function Tickers24(pairs: seq<string>): (r: Result<Request, Error>)
    ensures r.Err? <==> |pairs| == 0
    ensures r.Ok? ==> r.value == PublicGet("https://yobit.net/api/3/ticker/" + Join(pairs, "-"))
  {
    if |pairs| == 0 then Err(Fatal("Tickers24: Tickers list is empty"))
    else Ok(PublicGet(API_BASE + API_VERSION + "/ticker/" + Join(pairs, "-")))
  }

  /** The ticker URL names exactly the requested pairs, in order, when no pair name
      contains "-". */
  lemma TickerUrlNamesPairs(pairs: seq<string>)
    requires |pairs| > 0 && forall i :: 0 <= i < |pairs| ==> '-' !in pairs[i]
    ensures var prefix := "https://yobit.net/api/3/ticker/";
      var url := Tickers24(pairs).value.url;
      |prefix| <= |url| && url[..|prefix|] == prefix && Split(url[|prefix|..], '-') == pairs
  {
    var prefix := "https://yobit.net/api/3/ticker/";
    var url := Tickers24(pairs).value.url;
    assert url[|prefix|..] == Join(pairs, "-");
    SplitJoin(pairs, '-');
  }

  /** Info's request. */
  function InfoRequest(): (r: Request)
    ensures r == PublicGet("https://yobit.net/api/3/info")
  {
    PublicGet(API_BASE + API_VERSION + "/info")
  }

  /** DepthLimited: `%s/depth/%s?limit=%d` over the API base, the pairs and the limit. */
  function DepthLimited(pairs: string, limit: Int64): (r: Request)
    ensures r.verb == "GET" && r.headers == [] && r.body == ""
    ensures r.url == "https://yobit.net/api/3/depth/" + pairs + "?limit=" + FormatInt(limit)
  {
    PublicGet(API_BASE + API_VERSION + "/depth/" + pairs + "?limit=" + FormatInt(limit))
  }

  /** Depth: DepthLimited with the limit 150. */
  function Depth(pairs: string): (r: Request)
    ensures r == DepthLimited(pairs, 150)
    ensures r.url == "https://yobit.net/api/3/depth/" + pairs + "?limit=150"
  {
    assert FormatInt(DEFAULT_DEPTH_LIMIT) == "150" by {
      assert FormatUint(150) == FormatUint(15) + "0";
      assert FormatUint(15) == FormatUint(1) + "5";
    }
    DepthLimited(pairs, DEFAULT_DEPTH_LIMIT)
  }

  /** TradesLimited: `%s/trades/%s?limit=%d` over the API base, the pairs and the limit. */
  function TradesLimited(pairs: string, limit: Int64): (r: Request)
    ensures r.verb == "GET" && r.headers == [] && r.body == ""
    ensures r.url == "https://yobit.net/api/3/trades/" + pairs + "?limit=" + FormatInt(limit)
  {
    PublicGet(API_BASE + API_VERSION + "/trades/" + pairs + "?limit=" + FormatInt(limit))
  }

  /** Distinct limits give distinct depth URLs, and the same holds for trades. */
  lemma LimitsDistinguishUrls(pairs: string, a: Int64, b: Int64)
    requires a != b
    ensures DepthLimited(pairs, a).url != DepthLimited(pairs, b).url
    ensures TradesLimited(pairs, a).url != TradesLimited(pairs, b).url
  {
    var da, db := FormatInt(a), FormatInt(b);
    FormatIntInjective(a, b);
    var pre := "https://yobit.net/api/3/depth/" + pairs + "?limit=";
    assert DepthLimited(pairs, a).url[|pre|..] == da;
    assert DepthLimited(pairs, b).url[|pre|..] == db;
    var tpre := "https://yobit.net/api/3/trades/" + pairs + "?limit=";
    assert TradesLimited(pairs, a).url[|tpre|..] == da;
    assert TradesLimited(pairs, b).url[|tpre|..] == db;
  }

  // ---------------------------------------------------------------------------------
  // Private calls

  /** url.Values: each name maps to its list of values. */
  type Form = map<string, seq<string>>

  /** CallArg: one name/value argument of a private call. */
  datatype CallArg = CallArg(name: string, value: string)

  /** The values stored under a name (Go's nil slice when absent). */
  function ValuesOf(form: Form, name: string): seq<string> {
    if name in form then form[name] else []
  }

  /** url.Values.Add: appends the value to the name's list, leaving other names alone. */
  function Add(form: Form, name: string, value: string): (r: Form)
    ensures r.Keys == form.Keys + {name}
    ensures ValuesOf(r, name) == ValuesOf(form, name) + [value]
    ensures forall other :: other != name ==> ValuesOf(r, other) == ValuesOf(form, other)
  {
    form[name := ValuesOf(form, name) + [value]]
  }

  /** The loop of callPrivate: Add for each argument, in call order. */
  function AddAll(form: Form, args: seq<CallArg>): Form {
    if args == [] then form
    else
      var last := args[|args| - 1];
      Add(AddAll(form, args[..|args| - 1]), last.name, last.value)
  }

  /** The values of the arguments called `name`, in call order. */
  function ArgValues(args: seq<CallArg>, name: string): seq<string> {
    if args == [] then []
    else
      var last := args[|args| - 1];
      ArgValues(args[..|args| - 1], name) + (if last.name == name then [last.value] else [])
  }

  /** Adding arguments appends, under each name, the values of the arguments with that
      name in call order: a repeated name accumulates rather than replaces. */
  lemma {:induction false} AddAllAccumulates(form: Form, args: seq<CallArg>, name: string)
    ensures ValuesOf(AddAll(form, args), name) == ValuesOf(form, name) + ArgValues(args, name)
  {
    if args != [] {
      AddAllAccumulates(form, args[..|args| - 1], name);
    }
  }

  /** Adding arguments adds exactly their names to the form's names. */
  lemma {:induction false} AddAllNames(form: Form, args: seq<CallArg>)
    ensures AddAll(form, args).Keys == form.Keys + set i | 0 <= i < |args| :: args[i].name
  {
    if args != [] {
      var init := args[..|args| - 1];
      AddAllNames(form, init);
      assert (set i | 0 <= i < |args| :: args[i].name)
          == (set i | 0 <= i < |init| :: init[i].name) + {args[|args| - 1].name};
    }
  }

  /** The form callPrivate starts from: the method name and the nonce's decimal text. */
  function InitialForm(methodName: string, nonce: Uint64): Form {
    map["method" := [methodName], "nonce" := [FormatUint(nonce)]]
  }

  /** The complete form of a private call. */
  function PrivateForm(methodName: string, nonce: Uint64, args: seq<CallArg>): Form {
    AddAll(InitialForm(methodName, nonce), args)
  }

  /** A private call's form holds the method name first under "method", the nonce's
      decimal text first under "nonce" (reading back as the nonce), and under every name
      the caller's values in call order. */
  lemma PrivateFormFields(methodName: string, nonce: Uint64, args: seq<CallArg>)
    ensures var form := PrivateForm(methodName, nonce, args);
      && ValuesOf(form, "method") == [methodName] + ArgValues(args, "method")
      && ValuesOf(form, "nonce") == [FormatUint(nonce)] + ArgValues(args, "nonce")
      && ParseUint(ValuesOf(form, "nonce")[0]) == Ok(nonce)
      && (forall name :: name != "method" && name != "nonce" ==>
            ValuesOf(form, name) == ArgValues(args, name))
  {
    var init := InitialForm(methodName, nonce);
    var form := PrivateForm(methodName, nonce, args);
    AddAllAccumulates(init, args, "method");
    AddAllAccumulates(init, args, "nonce");
    ParseFormat(nonce);
    forall name | name != "method" && name != "nonce"
      ensures ValuesOf(form, name) == ArgValues(args, name)
    {
      AddAllAccumulates(init, args, name);
    }
  }

  const CONTENT_TYPE := "application/x-www-form-urlencoded"

  /** The request callPrivate sends for a given nonce: a POST to the trade API whose body
      is the encoded form and whose Sign header is the signature of that very body. */
  function PrivateRequest(credential: Credential, encode: Form -> string, mac: Auth.Mac,
                          methodName: string, nonce: Uint64, args: seq<CallArg>): (r: Request)
    ensures r.verb == "POST" && r.url == "https://yobit.net/tapi/"
    ensures r.body == encode(PrivateForm(methodName, nonce, args))
    ensures |r.headers| == 3
    ensures r.headers[0] == Header("Content-type", "application/x-www-form-urlencoded")
    ensures r.headers[1] == Header("Key", credential.key)
    ensures r.headers[2].name == "Sign"
    ensures r.headers[2].value == Auth.SignHmacSha512(mac, credential.secret, r.body)
    ensures Hex.Decode(r.headers[2].value) == Some(mac(credential.secret, r.body))
  {
    var body := encode(PrivateForm(methodName, nonce, args));
    var signature := Auth.SignHmacSha512(mac, credential.secret, body);
    Request("POST", API_TRADE,
            [Header("Content-type", CONTENT_TYPE), Header("Key", credential.key), Header("Sign", signature)],
            body)
  }

  /** Two private calls in a row from a readable nonce file carry different nonce fields,
      each reading back as the nonce that was drawn. */
  lemma {:induction false} SuccessiveCallsDifferInNonce(file: Option<string>, n: Uint64,
                                                       methodName: string, args: seq<CallArg>)
    requires ParseUint(Auth.Initialised(file).value) == Ok(n) && n + 2 <= MAX_UINT64
    ensures var first := Auth.NextNonce(file);
      var second := Auth.NextNonce(first.file);
      && first.nonce == Ok(n + 1) && second.nonce == Ok(n + 2)
      && |ValuesOf(PrivateForm(methodName, first.nonce.value, args), "nonce")| > 0
      && |ValuesOf(PrivateForm(methodName, second.nonce.value, args), "nonce")| > 0
      && ValuesOf(PrivateForm(methodName, first.nonce.value, args), "nonce")[0]
         != ValuesOf(PrivateForm(methodName, second.nonce.value, args), "nonce")[0]
  {
    Auth.TwoCallsConsecutive(file, n);
    PrivateFormFields(methodName, n + 1, args);
    PrivateFormFields(methodName, n + 2, args);
  }

  /** The client. Its nonce file, the form encoder (url.Values.Encode) and the MAC
      (HMAC-SHA512) are given to it; `pairs` is the market cache Info fills. */
  class Client {
    const credential: Credential
    const encode: Form -> string
    const mac: Auth.Mac
    const nonces: Auth.NonceFile
    var pairs: map<string, PairInfo>

    constructor (credential: Credential, encode: Form -> string, mac: Auth.Mac, nonces: Auth.NonceFile)
      ensures this.credential == credential && this.encode == encode && this.mac == mac
      ensures this.nonces == nonces && pairs == map[]
    {
      this.credential := credential;
      this.encode := encode;
      this.mac := mac;
      this.nonces := nonces;
      pairs := map[];
    }

    /** IsMarketExists: whether the market is a key of the cached pairs. */
    function IsMarketExists(market: string): (b: bool)
      reads this
      ensures b <==> market in pairs
    {
      market in pairs
    }

    /** Info, given the decoded response (or the decoding error): a decoded response
        replaces the market cache wholesale; a decoding error is fatal and leaves it. */
    method Info(decoded: Result<InfoResponse, string>) returns (r: Result<InfoResponse, Error>)
      modifies this
      ensures decoded.Ok? ==> r == Ok(decoded.value) && pairs == decoded.value.pairs
      ensures decoded.Err? ==> r == Err(Fatal(decoded.error)) && pairs == old(pairs)
      ensures decoded.Ok? ==> forall m :: IsMarketExists(m) <==> m in decoded.value.pairs
    {
      if decoded.Err? {
        return Err(Fatal(decoded.error));
      }
      pairs := decoded.value.pairs;
      r := Ok(decoded.value);
    }

    /** callPrivate: draws exactly one nonce (the file advances before anything is sent),
        builds the form with the method, the nonce and the arguments in order, signs its
        encoding and returns the POST request carrying that encoding as its body. */
    method CallPrivate(methodName: string, args: seq<CallArg>) returns (r: Result<Request, Error>)
      modifies nonces
      ensures var step := Auth.NextNonce(old(nonces.file));
        && nonces.file == step.file
        && (step.nonce.Err? ==> r == Err(NoncePanic(step.nonce.error)))
        && (step.nonce.Ok? ==> r == Ok(PrivateRequest(credential, encode, mac, methodName, step.nonce.value, args)))
    {
      var nonce := nonces.GetAndIncrementNonce();
      if nonce.Err? {
        return Err(NoncePanic(nonce.error));
      }
      var form := InitialForm(methodName, nonce.value);
      var i := 0;
      while i < |args|
        invariant 0 <= i <= |args|
        invariant form == AddAll(InitialForm(methodName, nonce.value), args[..i])
      {
        assert args[..i + 1][..i] == args[..i];
        form := Add(form, args[i].name, args[i].value);
        i := i + 1;
      }
      assert args[..|args|] == args;
      var encoded := encode(form);
      var signature := Auth.SignHmacSha512(mac, credential.secret, encoded);
      r := Ok(Request("POST", API_TRADE,
                      [Header("Content-type", CONTENT_TYPE), Header("Key", credential.key), Header("Sign", signature)],
                      encoded));
    }
  }
}
