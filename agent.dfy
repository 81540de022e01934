/**
 * The agent's records and its decoder for custom metrics pushed over UDP
 * (`process_metric` and the buffer the receive loop hands to it).
 */
module Agent {
  import opened Wrappers
  import opened Utf8
  import opened Text
  import opened FloatSyntax

  /** A metric in flight: `f64` values are read as reals. */
  datatype Metric = Metric(name: string, value: real, tags: map<string, string>)

  datatype LogLevel = Debug | Notice | Info | Warning | Error | Fatal

  /** One line of a log file in flight. */
  datatype LogLine = LogLine(line: string, level: Option<LogLevel>, createdAt: Option<string>, tags: map<string, string>)

  /** The size of the zero-filled buffer each datagram is received into. */
  const BufferSize: nat := 512

  /** `n`, the number of bytes `recv_from` stores: a longer datagram is cut to the buffer. */
  function Received(datagram: seq<byte>): (n: nat)
    ensures n <= BufferSize && n <= |datagram|
    ensures n == |datagram| || n == BufferSize
  {
    if |datagram| < BufferSize then |datagram| else BufferSize
  }

  /** The buffer after `recv_from`: the received bytes, then the zeros it was created with. */
  function ReceiveBuffer(datagram: seq<byte>): (buf: seq<byte>)
    ensures |buf| == BufferSize
    ensures buf[..Received(datagram)] == datagram[..Received(datagram)]
    ensures forall i :: Received(datagram) <= i < BufferSize ==> buf[i] == 0
  {
    var n := Received(datagram);
    datagram[..n] + seq(BufferSize - n, _ => 0)
  }

  /**
   * The metric read from trimmed text: the text before the first '|' must split
   * on ':' into exactly a name and a value; a value that is not an `f64` literal
   * reads as 0.0, and the tags are empty.
   */
  function MetricFromText(text: string, toF64: string -> real): (r: Option<Metric>)
    ensures var field := Split(text, '|')[0];
      r.Some? <==> Count(field, ':') == 1
    ensures r.Some? ==>
      var field := Split(text, '|')[0];
      var name := r.value.name;
      && |name| < |field| && field[..|name|] == name && field[|name|] == ':' && ':' !in name
      && r.value.value == ParseF64(field[|name| + 1..], toF64).GetOr(0.0)
      && r.value.tags == map[]
  {
    var parts := Split(text, '|');
    var nameValue := Split(parts[0], ':');
    if |nameValue| == 2 then
      assert Join(nameValue, ':') == nameValue[0] + [':'] + nameValue[1];
      Some(Metric(nameValue[0], ParseF64(nameValue[1], toF64).GetOr(0.0), map[]))
    else
      None
  }

  /**
   * `process_metric`: lossy UTF-8, trimmed, then read as above. The result is the
   * one metric sent (as a batch of one), if any.
   */
  function ProcessMetric(buf: seq<byte>, toF64: string -> real): (r: Option<Metric>)
    ensures r.Some? <==> Count(Split(Trim(DecodeLossy(buf)), '|')[0], ':') == 1
    ensures r.Some? ==> r.value.tags == map[] && ':' !in r.value.name && '|' !in r.value.name
  {
    MetricFromText(Trim(DecodeLossy(buf)), toF64)
  }

  /**
   * One datagram as the receive loop handles it: the whole buffer goes to
   * `process_metric`. Only a datagram that fills the buffer is decoded as the
   * intended handling would decode it.
   */
  function HandleDatagram(datagram: seq<byte>, toF64: string -> real): (r: Option<Metric>)
    ensures r.Some? ==> r.value.tags == map[] && ':' !in r.value.name && '|' !in r.value.name
    ensures |datagram| >= BufferSize ==> r == HandleDatagramFixed(datagram, toF64)
  {
    assert |datagram| >= BufferSize ==> ReceiveBuffer(datagram)[..Received(datagram)] == ReceiveBuffer(datagram);
    ProcessMetric(ReceiveBuffer(datagram), toF64)
  }

  /** The evidently intended handling: only the `n` bytes received are decoded. */
  function HandleDatagramFixed(datagram: seq<byte>, toF64: string -> real): (r: Option<Metric>)
    ensures |datagram| <= BufferSize ==> r == ProcessMetric(datagram, toF64)
  {
    assert |datagram| <= BufferSize ==> ReceiveBuffer(datagram)[..Received(datagram)] == datagram;
    ProcessMetric(ReceiveBuffer(datagram)[..Received(datagram)], toF64)
  }

  /** Text after the first '|' never changes the decoded metric. */
  lemma IgnoresTextAfterPipe(a: string, b: string, toF64: string -> real)
    requires '|' !in a
    ensures MetricFromText(a + ['|'] + b, toF64) == MetricFromText(a, toF64)
  {
    SplitFirstAt(a, b, '|');
  }

  /** A name and a value without ':' between them read back as that name and that value. */
  lemma NameValue(name: string, value: string, toF64: string -> real)
    requires ':' !in name && ':' !in value && '|' !in name + [':'] + value
    ensures MetricFromText(name + [':'] + value, toF64)
         == Some(Metric(name, ParseF64(value, toF64).GetOr(0.0), map[]))
  {
    var text := name + [':'] + value;
    SplitNone(text, '|');
    SplitPair(name, value, ':');
  }
}
