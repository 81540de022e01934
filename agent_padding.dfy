/**
 * What the receive loop's zero-filled buffer does to `process_metric`: the NUL
 * padding after the datagram survives `trim` and spoils the value text.
 */
module MetricPadding {
  import opened Wrappers
  import opened Utf8
  import opened Text
  import opened FloatSyntax
  import opened Agent

  /** The text `process_metric` sees for an ASCII datagram: one character per byte, then NULs. */
  lemma PaddedText(datagram: seq<byte>)
    requires |datagram| < BufferSize && IsAscii(datagram)
    ensures var text := DecodeLossy(ReceiveBuffer(datagram));
      && |text| == BufferSize
      && (forall i :: 0 <= i < |datagram| ==> text[i] == datagram[i] as char)
      && (forall i :: |datagram| <= i < BufferSize ==> text[i] == '\0')
  {
    var buf := ReceiveBuffer(datagram);
    assert forall i :: 0 <= i < |datagram| ==> buf[i] == buf[..|datagram|][i] == datagram[i];
    DecodeAscii(buf);
  }

  /** Trimming a text that ends in a NUL keeps that NUL as its last character. */
  lemma TrimBeforeNul(s: string)
    requires s != [] && s[|s| - 1] == '\0'
    ensures var t := Trim(s);
      t != [] && t == s[|s| - |t|..] && t[|t| - 1] == '\0'
  {
    var t1 := TrimStart(s);
    assert t1[|t1| - 1] == s[|s| - 1];
    assert TrimEnd(t1) == t1;
  }

  /** A metric whose field ends in a NUL, with no '|' before it, gets the fallback value. */
  lemma NulEndedValue(text: string, toF64: string -> real)
    requires text != [] && text[|text| - 1] == '\0' && '|' !in text
    ensures MetricFromText(text, toF64).Some? ==> MetricFromText(text, toF64).value.value == 0.0
  {
    SplitNone(text, '|');
    var r := MetricFromText(text, toF64);
    if r.Some? {
      var name := r.value.name;
      var valueText := text[|name| + 1..];
      assert valueText[|valueText| - 1] == '\0';
    }
  }

  /** The padded text of an ASCII datagram without '|' has no '|' and ends in a NUL. */
  lemma PaddedNoPipe(datagram: seq<byte>)
    requires |datagram| < BufferSize && IsAscii(datagram)
    requires forall i :: 0 <= i < |datagram| ==> datagram[i] != '|' as int
    ensures var text := DecodeLossy(ReceiveBuffer(datagram));
      |text| == BufferSize && text[BufferSize - 1] == '\0' && '|' !in text
  {
    var text := DecodeLossy(ReceiveBuffer(datagram));
    PaddedText(datagram);
    forall i | 0 <= i < BufferSize
      ensures text[i] != '|'
    {
      if i < |datagram| {
        assert text[i] == datagram[i] as char;
      }
    }
  }

  lemma SuffixExcludes(s: string, t: string, c: char)
    requires |t| <= |s| && t == s[|s| - |t|..] && c !in s
    ensures c !in t
  {
    forall i | 0 <= i < |t|
      ensures t[i] != c
    {
      assert t[i] == s[|s| - |t| + i];
    }
  }

  /** The trimmed text of an ASCII datagram without '|' is not empty, ends in a NUL and has no '|'. */
  lemma PaddedTrimmed(datagram: seq<byte>)
    requires |datagram| < BufferSize && IsAscii(datagram)
    requires forall i :: 0 <= i < |datagram| ==> datagram[i] != '|' as int
    ensures var text := Trim(DecodeLossy(ReceiveBuffer(datagram)));
      text != [] && text[|text| - 1] == '\0' && '|' !in text
  {
    var text0 := DecodeLossy(ReceiveBuffer(datagram));
    PaddedNoPipe(datagram);
    TrimBeforeNul(text0);
    SuffixExcludes(text0, Trim(text0), '|');
  }

  /**
   * As written: for an ASCII datagram shorter than the buffer and without '|', the
   * NUL padding ends up in the value text, which `f64` never accepts, so every
   * metric decoded from it carries the fallback value 0.0.
   */
  lemma PaddingZeroesValue(datagram: seq<byte>, toF64: string -> real)
    requires |datagram| < BufferSize && IsAscii(datagram)
    requires forall i :: 0 <= i < |datagram| ==> datagram[i] != '|' as int
    ensures HandleDatagram(datagram, toF64).Some? ==> HandleDatagram(datagram, toF64).value.value == 0.0
  {
    PaddedTrimmed(datagram);
    NulEndedValue(Trim(DecodeLossy(ReceiveBuffer(datagram))), toF64);
  }

  lemma TrimUnchanged(s: string)
    requires s != [] && !IsWhitespace(s[0]) && !IsWhitespace(s[|s| - 1])
    ensures Trim(s) == s
  {
    assert TrimStart(s) == s;
  }

  /** `42.5` is an `f64` literal. */
  lemma FortyTwoPointFive(t: string)
    requires t == "42.5"
    ensures IsRustFloat(t)
  {
    assert t == t[..2] + ['.'] + t[3..];
    DecimalIsFloat(t[..2], t[3..]);
  }

  /** `cpu.load:42.5` is the name `cpu.load` and the value `42.5`, with neither ':' nor '|' in them. */
  lemma CpuLoadShape(text: string)
    requires text == "cpu.load:42.5"
    ensures text == text[..8] + [':'] + text[9..]
    ensures text[..8] == "cpu.load" && text[9..] == "42.5"
    ensures ':' !in text[..8] && ':' !in text[9..] && '|' !in text
    ensures !IsWhitespace(text[0]) && !IsWhitespace(text[|text| - 1])
  {
  }

  /** The padded text of `cpu.load:42.5` is `cpu.load`, ':', and a value with no ':' in it. */
  lemma CpuLoadPaddedShape(datagram: seq<byte>)
    requires datagram == [0x63, 0x70, 0x75, 0x2E, 0x6C, 0x6F, 0x61, 0x64, 0x3A, 0x34, 0x32, 0x2E, 0x35]  // cpu.load:42.5
    ensures var text := DecodeLossy(ReceiveBuffer(datagram));
      && |text| == BufferSize
      && text == text[..8] + [':'] + text[9..]
      && text[..8] == "cpu.load"
      && ':' !in text[9..] && '|' !in text
      && !IsWhitespace(text[0]) && !IsWhitespace(text[|text| - 1])
  {
    var text := DecodeLossy(ReceiveBuffer(datagram));
    PaddedText(datagram);
    forall i | 0 <= i < BufferSize
      ensures text[i] != '|' && (i >= 9 ==> text[i] != ':')
    {
      if i < |datagram| {
        assert text[i] == datagram[i] as char;
      }
    }
  }

  /** The bytes of `cpu.load:42.5` are ASCII and none of them is '|'. */
  lemma CpuLoadBytes(datagram: seq<byte>)
    requires datagram == [0x63, 0x70, 0x75, 0x2E, 0x6C, 0x6F, 0x61, 0x64, 0x3A, 0x34, 0x32, 0x2E, 0x35]  // cpu.load:42.5
    ensures IsAscii(datagram) && forall i :: 0 <= i < |datagram| ==> datagram[i] != '|' as int
  {
    assert forall i :: 0 <= i < |datagram| ==> datagram[i] < '|' as int;
  }

  /** As written, the datagram `cpu.load:42.5` is sent as `cpu.load` with value 0.0. */
  lemma CpuLoadAsWritten(datagram: seq<byte>, toF64: string -> real)
    requires datagram == [0x63, 0x70, 0x75, 0x2E, 0x6C, 0x6F, 0x61, 0x64, 0x3A, 0x34, 0x32, 0x2E, 0x35]  // cpu.load:42.5
    ensures HandleDatagram(datagram, toF64) == Some(Metric("cpu.load", 0.0, map[]))
  {
    var text := DecodeLossy(ReceiveBuffer(datagram));
    CpuLoadPaddedShape(datagram);
    TrimUnchanged(text);
    NameValue(text[..8], text[9..], toF64);
    CpuLoadBytes(datagram);
    PaddingZeroesValue(datagram, toF64);
  }

  /** The datagram `cpu.load:42.5` decodes to that text. */
  lemma CpuLoadText(datagram: seq<byte>)
    requires datagram == [0x63, 0x70, 0x75, 0x2E, 0x6C, 0x6F, 0x61, 0x64, 0x3A, 0x34, 0x32, 0x2E, 0x35]  // cpu.load:42.5
    ensures DecodeLossy(datagram) == "cpu.load:42.5"
  {
    DecodeAscii(datagram);
  }

  /** Decoding only the received bytes sends `cpu.load` with the value of `42.5`. */
  lemma CpuLoadFixed(datagram: seq<byte>, toF64: string -> real)
    requires datagram == [0x63, 0x70, 0x75, 0x2E, 0x6C, 0x6F, 0x61, 0x64, 0x3A, 0x34, 0x32, 0x2E, 0x35]  // cpu.load:42.5
    ensures HandleDatagramFixed(datagram, toF64) == Some(Metric("cpu.load", toF64("42.5"), map[]))
  {
    CpuLoadText(datagram);
    var text := DecodeLossy(datagram);
    CpuLoadShape(text);
    TrimUnchanged(text);
    NameValue(text[..8], text[9..], toF64);
    FortyTwoPointFive(text[9..]);
  }
}
