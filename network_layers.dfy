/**
 * The layered network abstraction of abstraction.cpp: `TCPProtocol` turns the data of a packet
 * into raw bytes and back, and `HttpClient` builds the HTTP/1.1 request text it sends.
 *
 * The requests are shown to be header blocks of the shape `parse_headers` reads
 * (`WebSocketHandshake.Request`), so the header map a server would see is proved, including
 * the `Content-Length` of a POST.
 */
module NetworkLayers {
  import opened Bytes
  import WebSocketHandshake

  // ----- TCPProtocol -----

  /** `TCPProtocol::createTCPPacket`: one byte per character of the data; the destination is not used. */
  method CreateTcpPacket(dest: CString, data: CString) returns (packet: seq<Byte>)
    ensures packet == ToBytes(data)
  {
    packet := [];
    for i := 0 to |data|
      invariant |packet| == i
      invariant forall k :: 0 <= k < i ==> packet[k] == data[k] as int
    {
      packet := packet + [ToByte(data[i])];
    }
  }

  /** `TCPProtocol::parseTCPPacket`: one character per raw byte. */
  method ParseTcpPacket(rawData: seq<Byte>) returns (result: CString)
    ensures result == FromBytes(rawData)
  {
    result := [];
    for i := 0 to |rawData|
      invariant |result| == i
      invariant forall k :: 0 <= k < i ==> result[k] as int == rawData[k]
    {
      result := result + [FromByte(rawData[i])];
    }
  }

  /**
   * `TCPProtocol::sendPacket` as far as it is not I/O: the packet it hands to the device and
   * the device's answer. `EthernetDevice::sendRawData` reports success for every packet.
   */
  method SendPacket(dest: CString, data: CString) returns (ok: bool, sent: seq<Byte>)
    ensures ok && |sent| == |data|
    ensures FromBytes(sent) == data
  {
    sent := CreateTcpPacket(dest, data);
    StringBytesRoundTrip(data);
    ok := true;
  }

  /** `EthernetDevice::receiveRawData`: the device answers every read with the same four bytes. */
  const DEVICE_ANSWER: seq<Byte> := [0x01, 0x02, 0x03, 0x04]

  /** `TCPProtocol::receivePacket`: the device's answer read as characters. */
  method ReceivePacket() returns (response: CString)
    ensures |response| == 4 && ToBytes(response) == DEVICE_ANSWER
  {
    response := ParseTcpPacket(DEVICE_ANSWER);
    BytesStringRoundTrip(DEVICE_ANSWER);
  }

  // ----- std::to_string -----

  function DigitChar(d: nat): (c: CChar)
    requires d < 10
  {
    ('0' as int + d) as char
  }

  predicate IsDigits(s: string)
  {
    forall i :: 0 <= i < |s| ==> '0' <= s[i] <= '9'
  }

  /** `std::to_string(n)` for a `size_t`: decimal digits, no leading zero. */
  function Decimal(n: nat): (r: CString)
    ensures |r| >= 1 && IsDigits(r)
    decreases n
  {
    if n < 10 then [DigitChar(n)] else Decimal(n / 10) + [DigitChar(n % 10)]
  }

  /** The number a run of decimal digits denotes. */
  function DecimalValue(s: string): nat
    requires IsDigits(s)
  {
    if s == [] then 0 else 10 * DecimalValue(s[..|s| - 1]) + (s[|s| - 1] as int - '0' as int)
  }

  /** `std::to_string` writes one or more digits with no leading zero, and reading them back gives the number. */
  lemma {:induction false} DecimalRoundTrip(n: nat)
    ensures |Decimal(n)| >= 1 && IsDigits(Decimal(n))
    ensures Decimal(n)[0] == '0' ==> n == 0
    ensures DecimalValue(Decimal(n)) == n
    decreases n
  {
    if n >= 10 {
      DecimalRoundTrip(n / 10);
      var r := Decimal(n);
      assert r[..|r| - 1] == Decimal(n / 10);
    }
  }

  // ----- HttpClient -----

  /** The request text of `HttpClient::get`: the 17 bytes of method, version and blank line around the URL. */
  function GetRequest(url: CString): (r: CString)
    ensures |r| == |url| + 17
    ensures r[..4] == "GET " && r[4..4 + |url|] == url
  {
    "GET " + url + " HTTP/1.1\r\n\r\n"
  }

  /** The request text of `HttpClient::post`: a `Content-Length` field, the blank line, then the body. */
  function PostRequest(url: CString, body: CString): (r: CString)
    ensures |r| == |url| + |Decimal(|body|)| + |body| + 36
    ensures r[..5] == "POST " && r[5..5 + |url|] == url && r[|r| - |body|..] == body
  {
    "POST " + url + " HTTP/1.1\r\n" + "Content-Length: " + Decimal(|body|) + "\r\n\r\n" + body
  }

  /**
   * A GET request is a header block with the start line `GET <url> HTTP/1.1` and no fields,
   * so `parse_headers` finds no header in it.
   */
  lemma GetHasNoFields(url: CString)
    requires '\n' !in url
    ensures GetRequest(url) == WebSocketHandshake.Request("GET " + url + " HTTP/1.1", [])
    ensures WebSocketHandshake.HeaderMap(GetRequest(url)) == map[]
  {
    var start := "GET " + url + " HTTP/1.1";
    GetLayout(url);
    WebSocketHandshake.HeaderMapOfRequest(start, [], "");
    assert GetRequest(url) + "" == GetRequest(url);
  }

  lemma GetLayout(url: CString)
    ensures GetRequest(url) == WebSocketHandshake.Request("GET " + url + " HTTP/1.1", [])
  {
    var start := "GET " + url + " HTTP/1.1";
    var ls := [start + "\r"] + WebSocketHandshake.FieldLines([]) + ["\r"];
    assert ls == [start + "\r", "\r"];
    WebSocketHandshake.JoinCons(ls[0], ls[1..]);
    WebSocketHandshake.JoinCons(ls[1], []);
    assert ls[1..] == [ls[1]] + [];
  }

  /** `HttpClient::get`: sends the GET request text to `server.com`; the device accepts it. */
  method Get(url: CString) returns (ok: bool, sent: seq<Byte>)
    ensures ok && FromBytes(sent) == GetRequest(url)
  {
    ok, sent := SendPacket("server.com", GetRequest(url));
  }

  /** `HttpClient::post`: sends the POST request text to `server.com`; the device accepts it. */
  method Post(url: CString, body: CString) returns (ok: bool, sent: seq<Byte>)
    ensures ok && FromBytes(sent) == PostRequest(url, body)
  {
    ok, sent := SendPacket("server.com", PostRequest(url, body));
  }

  /** `HttpClient::getResponse`. */
  method GetResponse() returns (response: CString)
    ensures ToBytes(response) == DEVICE_ANSWER
  {
    response := ReceivePacket();
  }

  /** The one field of a POST request. */
  function LengthField(body: CString): (string, string)
  {
    ("Content-Length", Decimal(|body|))
  }

  /**
   * `parse_headers` finds exactly one field in the header block of a POST request,
   * `Content-Length`, and its value reads back as the length of the body that follows the
   * block. This holds for every start line without a newline; `PostLayout` shows the POST
   * request is such a block with the start line `POST <url> HTTP/1.1`.
   */
  lemma PostDeclaresBodyLength(start: string, body: CString)
    requires '\n' !in start
    ensures WebSocketHandshake.HeaderMap(WebSocketHandshake.Request(start, [LengthField(body)]) + body)
         == map["Content-Length" := Decimal(|body|)]
    ensures IsDigits(Decimal(|body|)) && DecimalValue(Decimal(|body|)) == |body|
  {
    DecimalRoundTrip(|body|);
    LengthFieldWellFormed(body);
    OneFieldHeaderMap(start, LengthField(body), body);
  }

  /** A header block with one well-formed field gives a map of that field alone. */
  lemma OneFieldHeaderMap(start: string, f: (string, string), body: string)
    requires '\n' !in start && WebSocketHandshake.WellFormedField(f)
    ensures WebSocketHandshake.HeaderMap(WebSocketHandshake.Request(start, [f]) + body) == map[f.0 := f.1]
  {
    WebSocketHandshake.HeaderMapOfRequest(start, [f], body);
    calc {
      WebSocketHandshake.StoreAll(map[], [f]);
      WebSocketHandshake.StoreAll(map[][f.0 := f.1], [f][1..]);
      { assert [f][1..] == []; }
      map[][f.0 := f.1];
    }
  }

  /**
   * A POST request is a header block with the start line `POST <url> HTTP/1.1` and the single
   * field `Content-Length`, and the body follows its blank line.
   */
  lemma PostLayout(url: CString, body: CString)
    ensures PostRequest(url, body) == WebSocketHandshake.Request("POST " + url + " HTTP/1.1", [LengthField(body)]) + body
  {
    var start := "POST " + url + " HTTP/1.1";
    var d := Decimal(|body|);
    OneFieldRequest(start, LengthField(body));
    PostText(url, d, body);
  }

  /** The text of a header block with one field. */
  lemma OneFieldRequest(start: string, f: (string, string))
    ensures WebSocketHandshake.Request(start, [f]) == start + "\r\n" + (f.0 + ": " + f.1 + "\r") + "\n" + "\r\n"
  {
    var ls := [start + "\r"] + WebSocketHandshake.FieldLines([f]) + ["\r"];
    assert ls == [start + "\r", WebSocketHandshake.FieldLine(f), "\r"];
    WebSocketHandshake.JoinCons(ls[0], ls[1..]);
    WebSocketHandshake.JoinCons(ls[1], ls[2..]);
    WebSocketHandshake.JoinCons(ls[2], []);
    assert ls[1..] == [ls[1]] + ls[2..];
    assert ls[2..] == [ls[2]] + [];
  }

  /** Regrouping the pieces of the POST request text. */
  lemma PostText(url: string, d: string, body: string)
    ensures "POST " + url + " HTTP/1.1\r\n" + "Content-Length: " + d + "\r\n\r\n" + body
         == ("POST " + url + " HTTP/1.1") + "\r\n" + ("Content-Length" + ": " + d + "\r") + "\n" + "\r\n" + body
  {
  }

  lemma LengthFieldWellFormed(body: CString)
    ensures WebSocketHandshake.WellFormedField(LengthField(body))
  {
    DecimalRoundTrip(|body|);
    var d := Decimal(|body|);
    assert '0' <= d[0] <= '9' && '0' <= d[|d| - 1] <= '9';
  }

  /** The two requests of the demonstration are 27 and 65 bytes long. */
  lemma DemoRequestSizes()
    ensures |GetRequest("/api/users")| == 27
    ensures |PostRequest("/api/users", "{\"name\": \"Alice\"}")| == 65
  {
    assert Decimal(17) == "17";
  }
}
