/** The base of every request to the adb server: the frame of the adb host
    services protocol (the request text preceded by its length as four
    upper-case hexadecimal digits), the default target, and the handshake that
    sends a request and checks the server's answer. Text is modelled as
    characters, and a character stands for one byte of the transport
    encoding. */
module RequestProtocol {
  import opened Wrappers
  import opened Text

  /** An upper-case hexadecimal digit, as `%X` writes them. */
  predicate IsHexDigit(c: char) {
    '0' <= c <= '9' || 'A' <= c <= 'F'
  }

  /** The digit for a value below 16. */
  function HexDigit(d: nat): (c: char)
    requires d < 16
    ensures IsHexDigit(c)
  {
    if d < 10 then ('0' as int + d) as char else ('A' as int + d - 10) as char
  }

  /** The value of one upper-case hexadecimal digit. */
  function DigitValue(c: char): (d: Option<nat>)
    ensures d.Some? <==> IsHexDigit(c)
    ensures d.Some? ==> d.value < 16 && HexDigit(d.value) == c
  {
    if '0' <= c <= '9' then Some(c as int - '0' as int)
    else if 'A' <= c <= 'F' then Some(c as int - 'A' as int + 10)
    else None
  }

  /** Java's `%X`: the number in upper-case hexadecimal, without leading zeros. */
  function Hex(n: nat): (s: string)
    ensures |s| >= 1
    ensures forall i :: 0 <= i < |s| ==> IsHexDigit(s[i])
    ensures n >= 16 ==> s[0] != '0'
    decreases n
  {
    if n < 16 then [HexDigit(n)] else Hex(n / 16) + [HexDigit(n % 16)]
  }

  /** The number that a run of hexadecimal digits stands for; the empty run is 0. */
  function HexValue(s: string): Option<nat>
    decreases |s|
  {
    if |s| == 0 then Some(0)
    else match (HexValue(s[..|s| - 1]), DigitValue(s[|s| - 1]))
      case (Some(high), Some(low)) => Some(high * 16 + low)
      case _ => None
  }

  function Zeros(n: nat): (z: string)
    ensures |z| == n && forall i :: 0 <= i < n ==> z[i] == '0'
  {
    if n == 0 then "" else Zeros(n - 1) + "0"
  }

  /** Java's `%04X`: the hexadecimal form left-padded with zeros to four digits. */
  function Format04X(n: nat): (s: string)
  {
    var h := Hex(n);
    if |h| < 4 then Zeros(4 - |h|) + h else h
  }

  /** `createBaseRequest`: the serialized target followed by the request,
      preceded by the length of both as `%04X`. */
  function CreateBaseRequest(targetPrefix: string, request: string): (frame: string)
    ensures |frame| >= 4 + |targetPrefix + request|
    ensures frame[|frame| - |targetPrefix + request|..] == targetPrefix + request
    ensures forall i :: 0 <= i < |frame| - |targetPrefix + request| ==> IsHexDigit(frame[i])
    ensures |targetPrefix + request| < 0x1_0000 ==>
      && |frame| == 4 + |targetPrefix + request|
      && HexValue(frame[..4]) == Some(|targetPrefix + request|)
      && frame[4..] == targetPrefix + request
  {
    var full := targetPrefix + request;
    FormatFourDigits(|full|);
    Format04X(|full|) + full
  }

  /** How the adb server reads a frame: four hexadecimal digits give the
      length of the payload that follows them. */
  function ReadFrame(frame: string): (payload: Option<string>)
    ensures payload.Some? ==> 4 + |payload.value| <= |frame| && frame[4..4 + |payload.value|] == payload.value
  {
    if |frame| < 4 then None
    else match HexValue(frame[..4])
      case None => None
      case Some(n) => if 4 + n <= |frame| then Some(frame[4..4 + n]) else None
  }

  /** The target a request is addressed to. Only `HostTarget`, the adb
      server itself, is named here; how a target is serialized is not part of
      this model, so the frame takes the serialized prefix as text. */
  datatype Target = HostTarget | DeviceTarget(serializedPrefix: string)

  /** The part of a request that the base class fixes: its target. */
  datatype RequestBase = RequestBase(target: Target)

  /** A request built without an explicit target is addressed to the host. */
  function NewRequest(target: Option<Target>): (r: RequestBase)
    ensures target.None? ==> r.target == HostTarget
    ensures target.Some? ==> r.target == target.value
  {
    RequestBase(match target case Some(t) => t case None => HostTarget)
  }

  /** The default `validate`: every request is valid. */
  function Validate(r: RequestBase): (ok: bool)
    ensures ok
  {
    true
  }

  // ---------------------------------------------------------------------------
  // Handshake

  /** What the read channel yields: whether the server answered OKAY, and the
      message it sent with a refusal, if any. */
  datatype TransportResponse = TransportResponse(okay: bool, message: Option<string>)

  /** `RequestRejectedException`. */
  datatype RequestRejected = RequestRejected(message: string)

  const NoMessage: string := "no message received"

  /** The outcome of a handshake on a given answer: nothing when the server
      accepted, otherwise the rejection with the server's message, or a fixed
      text when the server sent none. */
  function Rejection(response: TransportResponse): (e: Option<RequestRejected>)
    ensures e.None? <==> response.okay
    ensures e.Some? && response.message.Some? ==> e.value.message == response.message.value
    ensures e.Some? && response.message.None? ==> e.value.message == NoMessage
  {
    if response.okay then None
    else Some(RequestRejected(match response.message case Some(m) => m case None => NoMessage))
  }

  /** The two directions of the connection to the adb server: the frames
      written so far, and the answers still to be read. */
  class Connection {
    var written: seq<string>
    var pending: seq<TransportResponse>

    constructor (answers: seq<TransportResponse>)
      ensures written == [] && pending == answers
    {
      written := [];
      pending := answers;
    }

    /** `handshake`: the serialized request is written once, then one answer
        is read; an answer that is not OKAY rejects the request. */
    method Handshake(request: string) returns (rejected: Option<RequestRejected>)
      requires |pending| >= 1
      modifies this
      ensures written == old(written) + [request]
      ensures pending == old(pending)[1..]
      ensures rejected == Rejection(old(pending)[0])
    {
      written := written + [request];
      var response := pending[0];
      pending := pending[1..];
      if !response.okay {
        var message := if response.message.Some? then response.message.value else NoMessage;
        return Some(RequestRejected(message));
      }
      rejected := None;
    }
  }

  // ---------------------------------------------------------------------------
  // Lemmas

  /** A run of characters has a value exactly when every one of them is a
      hexadecimal digit. */
  lemma {:induction false} HexValueDigits(s: string)
    ensures HexValue(s).Some? <==> forall i :: 0 <= i < |s| ==> IsHexDigit(s[i])
    decreases |s|
  {
    if |s| > 0 {
      var t := s[..|s| - 1];
      HexValueDigits(t);
      assert forall i :: 0 <= i < |t| ==> t[i] == s[i];
    }
  }

  lemma {:induction false} HexRoundTrip(n: nat)
    ensures HexValue(Hex(n)) == Some(n)
    decreases n
  {
    var h := Hex(n);
    if n < 16 {
      assert h[..0] == [];
    } else {
      HexRoundTrip(n / 16);
      assert h[..|h| - 1] == Hex(n / 16);
    }
  }

  /** Leading zeros do not change the value of a run of digits. */
  lemma {:induction false} ZerosAddNothing(k: nat, s: string)
    requires HexValue(s).Some?
    ensures HexValue(Zeros(k) + s) == HexValue(s)
    decreases |s|
  {
    if |s| == 0 {
      ZerosValue(k);
      assert Zeros(k) + s == Zeros(k);
    } else {
      var t := s[..|s| - 1];
      assert HexValue(t).Some?;
      ZerosAddNothing(k, t);
      assert (Zeros(k) + s)[..|Zeros(k) + s| - 1] == Zeros(k) + t;
    }
  }

  lemma {:induction false} ZerosValue(k: nat)
    ensures HexValue(Zeros(k)) == Some(0)
  {
    if k > 0 {
      var z := Zeros(k);
      ZerosValue(k - 1);
      assert z[..k - 1] == Zeros(k - 1) && z[k - 1] == '0';
      assert DigitValue('0') == Some(0);
    }
  }

  /** The hexadecimal form has at most `k` digits exactly when the number is
      below 16 to the `k`. */
  lemma {:induction false} HexLength(n: nat, k: nat)
    requires k >= 1
    ensures |Hex(n)| <= k <==> n < Power16(k)
    decreases n
  {
    if n >= 16 {
      if k == 1 {
        assert |Hex(n)| == |Hex(n / 16)| + 1;
      } else {
        HexLength(n / 16, k - 1);
      }
    }
  }

  function Power16(k: nat): (p: nat)
    ensures p >= 1
  {
    if k == 0 then 1 else 16 * Power16(k - 1)
  }

  /** A length below 65536 is written as exactly four digits that read back
      as that length. */
  lemma {:induction false} FormatFourDigits(n: nat)
    ensures n < 0x1_0000 ==> |Format04X(n)| == 4 && HexValue(Format04X(n)) == Some(n)
  {
    if n < 0x1_0000 {
      HexLength(n, 4);
      assert Power16(4) == 0x1_0000;
      HexRoundTrip(n);
      var h := Hex(n);
      if |h| < 4 {
        ZerosAddNothing(4 - |h|, h);
      }
    }
  }

  /** The adb server reads back the request the frame was built from, as long
      as the request is shorter than 65536 characters. */
  lemma {:induction false} FrameRoundTrip(targetPrefix: string, request: string)
    requires |targetPrefix + request| < 0x1_0000
    ensures ReadFrame(CreateBaseRequest(targetPrefix, request)) == Some(targetPrefix + request)
  {
    var frame := CreateBaseRequest(targetPrefix, request);
    assert frame[4..4 + |targetPrefix + request|] == frame[4..];
  }

  /** A request of 65536 characters or more gets a length prefix of more than
      four digits, and the adb server, which reads four, reads a different
      request. */
  lemma {:induction false} OversizedFrameMisread(targetPrefix: string, request: string)
    requires |targetPrefix + request| >= 0x1_0000
    ensures |Format04X(|targetPrefix + request|)| > 4
    ensures ReadFrame(CreateBaseRequest(targetPrefix, request)) != Some(targetPrefix + request)
  {
    var n := |targetPrefix + request|;
    var h := Hex(n);
    HexLength(n, 4);
    assert Power16(4) == 0x1_0000;
    var frame := CreateBaseRequest(targetPrefix, request);
    assert frame[..4] == h[..4];
    var m := HexPrefixSmaller(n, 4);
    if ReadFrame(frame).Some? {
      assert |ReadFrame(frame).value| == m;
    }
  }

  /** The first `j` digits of a longer hexadecimal form stand for a number at
      most a sixteenth of it. */
  lemma {:induction false} HexPrefixSmaller(n: nat, j: nat) returns (m: nat)
    requires 1 <= j < |Hex(n)|
    ensures HexValue(Hex(n)[..j]) == Some(m) && m <= n / 16
    decreases n
  {
    var h := Hex(n);
    assert n >= 16;
    assert h[..|h| - 1] == Hex(n / 16);
    if j == |h| - 1 {
      HexRoundTrip(n / 16);
      m := n / 16;
    } else {
      assert h[..j] == Hex(n / 16)[..j];
      m := HexPrefixSmaller(n / 16, j);
    }
  }

  /** `GetSinglePropRequest("x")`, whose target adds no prefix, frames as
      `000Fshell:getprop x`. */
  lemma {:induction false} GetSinglePropFrame()
    ensures CreateBaseRequest("", "shell:getprop x") == "000Fshell:getprop x"
  {
    assert |"shell:getprop x"| == 15;
    assert Hex(15) == "F";
    assert Zeros(3) == "000";
  }
}
