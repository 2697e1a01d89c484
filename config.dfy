/**
 * The browser's server address (frontend/src/config.js): the server settings drawn
 * from the build environment with their defaults, and the three URLs built from them.
 * Reading the environment is outside the model: the three variables come in as values.
 */
module Config {
  import opened Wrappers

  /** A JavaScript number as parseInt leaves it: an integer, or NaN when no digit was read. */
  datatype JsNumber = Int(n: int) | NaN

  /** The server settings: host, port, and whether the connection is encrypted. */
  datatype Server = Server(host: string, port: JsNumber, useSSL: bool)

  /** The three build variables; None is a variable that is not set. */
  datatype Env = Env(serverHost: Option<string>, serverPort: Option<string>, useSsl: Option<string>)

  const DEFAULT_HOST: string := "sqapi.pekka.asia"
  const DEFAULT_PORT: string := "443"

  // ---------------------------------------------------------------- decimal text

  predicate IsDigit(c: char) { '0' <= c <= '9' }

  /** How many decimal digits s starts with. */
  function DigitRun(s: string): (k: nat)
    ensures k <= |s|
    ensures forall i :: 0 <= i < k ==> IsDigit(s[i])
    ensures k < |s| ==> !IsDigit(s[k])
  {
    if |s| > 0 && IsDigit(s[0]) then 1 + DigitRun(s[1..]) else 0
  }

  /** The value of a string of decimal digits, most significant first. */
  function DigitsValue(s: string): (v: nat)
    requires forall i :: 0 <= i < |s| ==> IsDigit(s[i])
    ensures v == 0 <==> forall i :: 0 <= i < |s| ==> s[i] == '0'
  {
    if |s| == 0 then 0
    else
      assert IsDigit(s[|s| - 1]);
      10 * DigitsValue(s[..|s| - 1]) + (s[|s| - 1] as int - '0' as int)
  }

  /**
   * parseInt in base 10: an optional sign, then the longest run of digits; NaN when
   * there is no digit at all.
   */
  function ParseInt(s: string): (r: JsNumber)
    ensures r.NaN? <==> DigitRun(if |s| > 0 && (s[0] == '-' || s[0] == '+') then s[1..] else s) == 0
  {
    var negative := |s| > 0 && s[0] == '-';
    var body := if |s| > 0 && (s[0] == '-' || s[0] == '+') then s[1..] else s;
    var k := DigitRun(body);
    if k == 0 then NaN
    else
      var v: int := DigitsValue(body[..k]);
      Int(if negative then -v else v)
  }

  /** The decimal text of a natural number, no leading zeros. */
  function NatText(n: nat): (s: string)
    ensures |s| >= 1
    ensures forall i :: 0 <= i < |s| ==> IsDigit(s[i])
    decreases n
  {
    if n < 10 then [('0' as int + n) as char]
    else NatText(n / 10) + [('0' as int + n % 10) as char]
  }

  /** Reading back the text of n gives n. */
  lemma {:induction false} NatTextValue(n: nat)
    ensures DigitsValue(NatText(n)) == n
    decreases n
  {
    var s := NatText(n);
    if n >= 10 {
      NatTextValue(n / 10);
      assert s[..|s| - 1] == NatText(n / 10);
    }
  }

  /** How a template string writes a number: its decimal text, a minus sign if negative, or NaN. */
  function NumberText(x: JsNumber): (s: string)
    ensures |s| >= 1
  {
    match x
    case NaN => "NaN"
    case Int(n) => if n < 0 then "-" + NatText(-n) else NatText(n)
  }

  /** parseInt reads back every integer the template writes. */
  lemma NumberTextRoundTrip(n: int)
    ensures ParseInt(NumberText(Int(n))) == Int(n)
  {
    var m: nat := if n < 0 then -n else n;
    var t := NatText(m);
    NatTextValue(m);
    assert DigitRun(t) == |t| by {
      DigitRunAll(t);
    }
    assert t[..|t|] == t;
    if n < 0 {
      assert NumberText(Int(n))[1..] == t;
    } else {
      assert t[0] != '-' && t[0] != '+';
    }
  }

  /** A string of digits is one run. */
  lemma {:induction false} DigitRunAll(s: string)
    requires forall i :: 0 <= i < |s| ==> IsDigit(s[i])
    ensures DigitRun(s) == |s|
  {
    if |s| > 0 {
      DigitRunAll(s[1..]);
    }
  }

  // ---------------------------------------------------------------- environment

  /** The `||` default: an unset or empty variable gives the fallback. */
  function OrDefault(v: Option<string>, fallback: string): (r: string)
    ensures r == fallback <==> v == None || v == Some("") || v == Some(fallback)
    ensures r != fallback ==> v == Some(r)
  {
    if v.Some? && v.value != "" then v.value else fallback
  }

  /**
   * getEnvConfig: host and port fall back to the public server on port 443; the
   * connection is encrypted unless the SSL variable is exactly the text "false".
   */
  function GetEnvConfig(env: Env): (s: Server)
    ensures s.host == OrDefault(env.serverHost, DEFAULT_HOST)
    ensures s.port == ParseInt(OrDefault(env.serverPort, DEFAULT_PORT))
    ensures !s.useSSL <==> env.useSsl == Some("false")
  {
    Server(OrDefault(env.serverHost, DEFAULT_HOST),
           ParseInt(OrDefault(env.serverPort, DEFAULT_PORT)),
           env.useSsl != Some("false"))
  }

  // ---------------------------------------------------------------- URLs

  /** The port a browser assumes for the scheme: 443 with SSL, 80 without. */
  predicate StandardPort(s: Server): (b: bool)
    ensures b ==> s.port.Int? && (s.port.n == 443 <==> s.useSSL)
  {
    (s.useSSL && s.port == Int(443)) || (!s.useSSL && s.port == Int(80))
  }

  /** The port part of the address: nothing on the scheme's standard port, else a colon and the number. */
  function PortPart(s: Server): (r: string)
    ensures r == "" <==> StandardPort(s)
    ensures r != "" ==> r[0] == ':' && r[1..] == NumberText(s.port)
  {
    if StandardPort(s) then "" else ":" + NumberText(s.port)
  }

  /** getServerUrl: scheme, host and port part. */
  function GetServerUrl(s: Server): (r: string)
    ensures |r| >= 7 + |PortPart(s)|
    ensures s.useSSL <==> |r| >= 8 && r[..8] == "https://"
    ensures !s.useSSL <==> r[..7] == "http://"
    ensures r[|r| - |PortPart(s)|..] == PortPart(s)
    ensures s.useSSL ==> r[8..|r| - |PortPart(s)|] == s.host
    ensures !s.useSSL ==> r[7..|r| - |PortPart(s)|] == s.host
  {
    var scheme := if s.useSSL then "https" else "http";
    var r := scheme + "://" + s.host + PortPart(s);
    assert r[..|scheme| + 3] == scheme + "://";
    assert r[4] == if s.useSSL then 's' else ':';
    r
  }

  /** getSocketUrl: the Socket.IO connection goes to the server URL itself. */
  function GetSocketUrl(s: Server): (r: string)
    ensures r == GetServerUrl(s)
  {
    GetServerUrl(s)
  }

  /** getApiUrl: the server URL with the path /api. */
  function GetApiUrl(s: Server): (r: string)
    ensures |r| == |GetServerUrl(s)| + 4
    ensures r[..|GetServerUrl(s)|] == GetServerUrl(s) && r[|GetServerUrl(s)|..] == "/api"
  {
    GetServerUrl(s) + "/api"
  }

  /**
   * On a non-standard port the address ends in the port the settings hold: reading
   * the digits after the colon gives that port back.
   */
  lemma PortRecoverable(s: Server)
    requires s.port.Int? && !StandardPort(s)
    ensures ParseInt(PortPart(s)[1..]) == s.port
  {
    NumberTextRoundTrip(s.port.n);
  }

  // ---------------------------------------------------------------- the two configurations

  /** config: the settings read from the build environment. */
  function AppConfig(env: Env): (s: Server)
    ensures env == Env(None, None, None) ==> s == Server(DEFAULT_HOST, Int(443), true)
  {
    DefaultsParse();
    GetEnvConfig(env)
  }

  /** The default port text reads as 443. */
  lemma DefaultsParse()
    ensures ParseInt(DEFAULT_PORT) == Int(443)
  {
    assert DigitRun(DEFAULT_PORT) == 3 by {
      DigitRunAll(DEFAULT_PORT);
    }
    assert DEFAULT_PORT[..3] == DEFAULT_PORT;
    assert DigitsValue("4") == 4;
    assert DigitsValue("44") == 44 by {
      assert "44"[..1] == "4";
    }
    assert DEFAULT_PORT[..2] == "44";
  }

  /** With nothing set the browser talks to https://sqapi.pekka.asia, port part omitted. */
  lemma DefaultUrls()
    ensures GetServerUrl(AppConfig(Env(None, None, None))) == "https://" + DEFAULT_HOST
    ensures GetApiUrl(AppConfig(Env(None, None, None))) == "https://" + DEFAULT_HOST + "/api"
  {
    var s := AppConfig(Env(None, None, None));
    assert s == Server(DEFAULT_HOST, Int(443), true);
    assert PortPart(s) == "";
    assert "https" + "://" == "https://";
  }

  /** devConfig: the local server on port 5000 with SSL. */
  const DEV_SERVER: Server := Server("localhost", Int(5000), true)

  /** The development addresses keep the non-standard port. */
  lemma DevUrls()
    ensures GetServerUrl(DEV_SERVER) == "https://localhost:5000"
    ensures GetSocketUrl(DEV_SERVER) == "https://localhost:5000"
    ensures GetApiUrl(DEV_SERVER) == "https://localhost:5000/api"
  {
    assert NatText(5000) == "5000" by {
      assert NatText(5) == "5";
      assert NatText(50) == "50";
      assert NatText(500) == "500";
    }
    assert PortPart(DEV_SERVER) == ":5000";
    assert "https" + "://" + "localhost" + ":5000" == "https://localhost:5000";
  }
}
