// The Gauss TDM audio output stream's request handling
// (system/dev/audio/gauss-tdm/gauss-tdm-stream.cpp): requests read from the
// stream channel and the ring buffer channel are checked (header, payload
// size, NO_ACK flag) and dispatched; the format list is sent in chunks; a
// format change is allowed on the privileged channel only; the ring buffer
// is sized from the request and the FIFO depth. The audio protocol's sizes
// and codes, the format utilities and the kernel calls are parameters.
module GaussTdm {
  import opened Zx

  /** An audio protocol command (the command word with its NO_ACK bit
      taken out). */
  datatype Cmd =
    | GetFormats | SetFormat | GetGain | SetGain | PlugDetect
    | GetFifoDepth | GetBuffer | Start | Stop
    | Unknown(code: nat)

  /** A request header: transaction id, command, and whether the command
      word carried AUDIO_FLAG_NO_ACK. */
  datatype Hdr = Hdr(txid: nat, cmd: Cmd, noAck: bool)

  /** What the audio protocol headers fix and this model does not include:
      the header size, AUDIO_INVALID_TRANSACTION_ID,
      AUDIO_STREAM_CMD_GET_FORMATS_MAX_RANGES_PER_RESPONSE and each
      command's request size. */
  datatype Proto = Proto(hdrSize: nat, invalidTxid: nat, maxRanges: nat, payloadSize: Cmd -> nat)
  {
    predicate Valid()
    {
      maxRanges > 0
    }
  }

  /** The commands of the stream channel. */
  predicate StreamCmd(c: Cmd)
  {
    c.GetFormats? || c.SetFormat? || c.GetGain? || c.SetGain? || c.PlugDetect?
  }

  /** The commands of the ring buffer channel. */
  predicate RingCmd(c: Cmd)
  {
    c.GetFifoDepth? || c.GetBuffer? || c.Start? || c.Stop?
  }

  /** The commands registered with allow_noack. */
  predicate AllowsNoAck(c: Cmd)
  {
    c.SetGain? || c.PlugDetect?
  }

  /** The verdict on a request: rejected with a status, or handed to the
      command's handler. */
  datatype Dispatch = Reject(status: Status) | Handle(cmd: Cmd)

  /** The checks of ProcessStreamChannel (`ring` false) and
      ProcessRingBufferChannel (`ring` true) on a request of `size` bytes:
      the header must be there with a valid transaction id, the command must
      be one of the channel's, the size must be that command's, and NO_ACK
      only on the commands that allow it. */
  function Validate(p: Proto, ring: bool, size: nat, hdr: Hdr): Dispatch
  {
    if size < p.hdrSize || hdr.txid == p.invalidTxid then Reject(ErrInvalidArgs)
    else if !(if ring then RingCmd(hdr.cmd) else StreamCmd(hdr.cmd)) then Reject(ErrNotSupported)
    else if size != p.payloadSize(hdr.cmd) then Reject(ErrInvalidArgs)
    else if hdr.noAck && !AllowsNoAck(hdr.cmd) then Reject(ErrInvalidArgs)
    else Handle(hdr.cmd)
  }

  /** A request reaches a handler exactly when every check passes, and
      then the handler of its own command. */
  lemma ValidateAccepts(p: Proto, ring: bool, size: nat, hdr: Hdr, c: Cmd)
    ensures Validate(p, ring, size, hdr) == Handle(c) <==>
            c == hdr.cmd && size >= p.hdrSize && hdr.txid != p.invalidTxid &&
            (if ring then RingCmd(c) else StreamCmd(c)) && size == p.payloadSize(c) &&
            (hdr.noAck ==> AllowsNoAck(c))
  {
  }

  /** A rejection is INVALID_ARGS or, for a well-formed header whose
      command belongs to no handler of this channel, NOT_SUPPORTED. */
  lemma ValidateRejects(p: Proto, ring: bool, size: nat, hdr: Hdr)
    ensures Validate(p, ring, size, hdr).Reject? ==>
              Validate(p, ring, size, hdr).status in {ErrInvalidArgs, ErrNotSupported}
    ensures Validate(p, ring, size, hdr) == Reject(ErrNotSupported) <==>
              size >= p.hdrSize && hdr.txid != p.invalidTxid && !(if ring then RingCmd(hdr.cmd) else StreamCmd(hdr.cmd))
  {
  }

  /** A ring buffer command sent on the stream channel, or a stream
      command on the ring buffer channel, is not supported. */
  lemma ChannelsDisjoint(p: Proto, size: nat, hdr: Hdr)
    requires size >= p.hdrSize && hdr.txid != p.invalidTxid
    ensures RingCmd(hdr.cmd) ==> Validate(p, false, size, hdr) == Reject(ErrNotSupported)
    ensures StreamCmd(hdr.cmd) ==> Validate(p, true, size, hdr) == Reject(ErrNotSupported)
  {
  }

  /** audio_stream_format_range_t. */
  datatype FormatRange = FormatRange(minChannels: nat, maxChannels: nat, sampleFormats: nat,
                                     minFps: nat, maxFps: nat, flags: nat)

  /** The fields of the request union that the handlers read (they all
      overlay the same bytes). */
  datatype Payload = Payload(fps: nat, channels: nat, sampleFormat: nat,
                             muteValid: bool, mute: bool, gainValid: bool, gainIsZero: bool,
                             minRingBufferFrames: nat, notificationsPerRing: nat)

  /** The responses, each echoing the request's header. GetGain reports no
      mute and a fixed gain of 0; PlugDetect reports hardwired and plugged. */
  datatype Response =
    | FormatsResp(hdr: Hdr, count: nat, first: nat, ranges: seq<FormatRange>)
    | SetFormatResp(hdr: Hdr, result: Status, withChannel: bool)
    | GetGainResp(hdr: Hdr)
    | SetGainResp(hdr: Hdr, result: Status)
    | PlugDetectResp(hdr: Hdr)
    | FifoDepthResp(hdr: Hdr, depth: nat)
    | GetBufferResp(hdr: Hdr, result: Status, withVmo: bool)
    | StartResp(hdr: Hdr)
    | StopResp(hdr: Hdr)

  /** A dispatcher channel: what was written to it. Whether writes succeed
      is fixed when it is made. */
  class Channel {
    const writeStatus: Status
    var sent: seq<Response>

    constructor(writeStatus: Status)
      ensures this.writeStatus == writeStatus && sent == []
    {
      this.writeStatus := writeStatus;
      sent := [];
    }

    /** Channel::Write: a failed write sends nothing. */
    method Write(r: Response) returns (st: Status)
      modifies this
      ensures st == writeStatus
      ensures sent == if writeStatus == Ok then old(sent) + [r] else old(sent)
    {
      if writeStatus == Ok {
        sent := sent + [r];
      }
      st := writeStatus;
    }
  }

  // The format list in chunks.

  /** The responses OnGetStreamFormatsLocked sends from range `from` on:
      up to `m` ranges each, the first one even when there is nothing left
      to send. */
  function FormatChunks(hdr: Hdr, formats: seq<FormatRange>, from: nat, m: nat): (cs: seq<Response>)
    requires from <= |formats| && m > 0
    ensures |cs| >= 1
    decreases |formats| - from
  {
    var todo := Min(|formats| - from, m);
    var c := FormatsResp(hdr, |formats|, from, formats[from..from + todo]);
    if from + todo < |formats| then [c] + FormatChunks(hdr, formats, from + todo, m) else [c]
  }

  /** The chunks still to go once `from` ranges have gone out after the
      first chunk. */
  function Pending(hdr: Hdr, formats: seq<FormatRange>, from: nat, m: nat): seq<Response>
    requires from <= |formats| && m > 0
  {
    if from < |formats| then FormatChunks(hdr, formats, from, m) else []
  }

  lemma ChunkStep(hdr: Hdr, formats: seq<FormatRange>, from: nat, m: nat)
    requires from <= |formats| && m > 0
    ensures var todo := Min(|formats| - from, m);
            FormatChunks(hdr, formats, from, m) ==
            [FormatsResp(hdr, |formats|, from, formats[from..from + todo])] + Pending(hdr, formats, from + todo, m)
  {
  }

  /** The `k`-th chunk starts at `from + k * m`, is full except possibly
      for the last, carries the ranges from where it starts, the total
      count and the request's header. */
  lemma {:induction false} ChunkLayout(hdr: Hdr, formats: seq<FormatRange>, from: nat, m: nat, k: nat)
    requires from <= |formats| && m > 0
    requires k < |FormatChunks(hdr, formats, from, m)|
    ensures var c := FormatChunks(hdr, formats, from, m)[k];
            c.FormatsResp? && c.hdr == hdr && c.count == |formats| &&
            c.first == from + k * m && c.first <= |formats| &&
            c.ranges == formats[c.first..c.first + Min(|formats| - c.first, m)]
    decreases |formats| - from
  {
    var todo := Min(|formats| - from, m);
    if k > 0 {
      ChunkLayout(hdr, formats, from + todo, m, k - 1);
      assert from + todo + (k - 1) * m == from + k * m;
    }
  }

  /** The ranges of all chunks, in order. */
  function AllRanges(cs: seq<Response>): seq<FormatRange>
    requires forall i :: 0 <= i < |cs| ==> cs[i].FormatsResp?
  {
    if cs == [] then [] else cs[0].ranges + AllRanges(cs[1..])
  }

  /** The chunks together carry every range from `from` on, each once and
      in order. */
  lemma {:induction false} ChunksCoverFormats(hdr: Hdr, formats: seq<FormatRange>, from: nat, m: nat)
    requires from <= |formats| && m > 0
    ensures forall i :: 0 <= i < |FormatChunks(hdr, formats, from, m)| ==> FormatChunks(hdr, formats, from, m)[i].FormatsResp?
    ensures AllRanges(FormatChunks(hdr, formats, from, m)) == formats[from..]
    decreases |formats| - from
  {
    var cs := FormatChunks(hdr, formats, from, m);
    var todo := Min(|formats| - from, m);
    if from + todo < |formats| {
      ChunksCoverFormats(hdr, formats, from + todo, m);
      assert cs[1..] == FormatChunks(hdr, formats, from + todo, m);
      assert formats[from..] == formats[from..from + todo] + formats[from + todo..];
    } else {
      assert cs[1..] == [];
    }
  }

  // The ring buffer's sizes.

  /** The size asked of the kernel for the ring buffer:
      min_ring_buffer_frames * frame_size_ in uint32 arithmetic, at least
      the FIFO depth. */
  function RingBufferRequest(minFrames: nat, frameSize: nat, fifoBytes: nat): (n: nat)
    ensures n >= fifoBytes
    ensures n == fifoBytes || n == Mul32(minFrames, frameSize)
    ensures minFrames * frameSize < U32_MOD ==> n >= minFrames * frameSize && (n == fifoBytes || n == minFrames * frameSize)
  {
    var n := Mul32(minFrames, frameSize);
    if n < fifoBytes then fifoBytes else n
  }

  /** Bytes between position notifications: the ring divided evenly among
      the notifications, or 0 when none are asked for. */
  function BytesPerNotification(ringSize: nat, notifications: nat): (b: nat)
    ensures notifications == 0 ==> b == 0
    ensures notifications > 0 ==> b * notifications <= ringSize < (b + 1) * notifications
  {
    if notifications == 0 then 0 else ringSize / notifications
  }

  /** Microseconds between notifications at 48000 frames per second, in
      uint32 arithmetic. */
  function UsPerNotification(bytesPerNotification: nat, frameSize: nat): nat
    requires 0 < frameSize && 48 * frameSize < U32_MOD
  {
    Mul32(1000, bytesPerNotification) / (48 * frameSize)
  }

  /** The result OnGetBufferLocked reports: the first of the VMO's
      creation, commit, lookup and duplication that failed. */
  function BufferResult(create: Status, commit: Status, lookup: Status, dup: Status): (r: Status)
    ensures r == Ok <==> create == Ok && commit == Ok && lookup == Ok && dup == Ok
    ensures r != Ok ==> r in {create, commit, lookup, dup}
  {
    if create != Ok then create else if commit != Ok then commit else if lookup != Ok then lookup else dup
  }

  /** What the kernel and the dispatcher answer: creating and activating
      the ring buffer channel, and creating, sizing, committing, looking
      up and duplicating the ring buffer VMO. */
  datatype Env = Env(chanCreateOk: bool, activateStatus: Status, vmoCreateStatus: Status, vmoSize: nat,
                     commitStatus: Status, lookupStatus: Status, dupStatus: Status)

  /** TdmOutputStream's request-handling state. `compatible` and
      `frameSizeOf` are audio::utils::FormatIsCompatible and
      ComputeFrameSize. */
  class TdmOutputStream {
    const proto: Proto
    const formats: seq<FormatRange>
    const compatible: (nat, nat, nat, FormatRange) -> bool
    const frameSizeOf: (nat, nat) -> nat
    var frameSize: nat
    var fifoBytes: nat
    var hasRbChannel: bool
    var vmoRequest: nat
    var ringBufferSize: nat
    var bytesPerNotification: nat
    var usPerNotification: nat
    var hasVmo: bool
    var running: bool

    constructor(proto: Proto, formats: seq<FormatRange>, compatible: (nat, nat, nat, FormatRange) -> bool,
                frameSizeOf: (nat, nat) -> nat)
      requires proto.Valid()
      ensures this.proto == proto && this.formats == formats && this.compatible == compatible &&
              this.frameSizeOf == frameSizeOf
      ensures frameSize == 0 && fifoBytes == 0 && !hasRbChannel && !hasVmo && !running
    {
      this.proto := proto;
      this.formats := formats;
      this.compatible := compatible;
      this.frameSizeOf := frameSizeOf;
      frameSize := 0;
      fifoBytes := 0;
      hasRbChannel := false;
      vmoRequest := 0;
      ringBufferSize := 0;
      bytesPerNotification := 0;
      usPerNotification := 0;
      hasVmo := false;
      running := false;
    }

    /** The requested format matches one of the supported ranges. */
    predicate Supported(pl: Payload)
      reads this
    {
      exists i :: 0 <= i < |formats| && compatible(pl.fps, pl.channels, pl.sampleFormat, formats[i])
    }

    /** OnGetStreamFormatsLocked: more ranges than a uint16 counts is
        INTERNAL; otherwise the chunks are written in order until one
        write fails. */
    method OnGetStreamFormats(ch: Channel, hdr: Hdr) returns (st: Status)
      requires proto.Valid()
      modifies ch
      ensures |formats| > 65535 ==> st == ErrInternal && ch.sent == old(ch.sent)
      ensures |formats| <= 65535 ==> st == ch.writeStatus
      ensures |formats| <= 65535 ==>
                ch.sent == old(ch.sent) + (if ch.writeStatus == Ok then FormatChunks(hdr, formats, 0, proto.maxRanges) else [])
    {
      if |formats| > 65535 {
        return ErrInternal;
      }
      var m := proto.maxRanges;
      var formatsSent: nat := 0;
      var first := true;
      while first || formatsSent < |formats|
        invariant formatsSent <= |formats|
        invariant first ==> formatsSent == 0 && ch.sent == old(ch.sent)
        invariant !first ==> ch.writeStatus == Ok
        invariant !first ==>
                    old(ch.sent) + FormatChunks(hdr, formats, 0, m) == ch.sent + Pending(hdr, formats, formatsSent, m)
        decreases |formats| - formatsSent + (if first then 1 else 0)
      {
        var todo := Min(|formats| - formatsSent, m);
        st := ch.Write(FormatsResp(hdr, |formats|, formatsSent, formats[formatsSent..formatsSent + todo]));
        if st != Ok {
          return;
        }
        ChunkStep(hdr, formats, formatsSent, m);
        formatsSent := formatsSent + todo;
        first := false;
      }
      st := Ok;
    }

    /** OnSetStreamFormatLocked. A non-privileged channel gets ACCESS_DENIED
        and an unsupported format INVALID_ARGS, with nothing changed; a
        frame size of 0 is INTERNAL (the frame size is stored first).
        Otherwise the old ring buffer channel goes, the FIFO depth becomes
        1024 and a new channel is made. The response goes out either way;
        the status returned is the write's. */
    method OnSetStreamFormat(ch: Channel, hdr: Hdr, pl: Payload, privileged: bool, env: Env) returns (st: Status)
      modifies this, ch
      ensures st == ch.writeStatus
      ensures var result := if !privileged then ErrAccessDenied
                            else if !old(Supported(pl)) then ErrInvalidArgs
                            else if frameSizeOf(pl.channels, pl.sampleFormat) == 0 then ErrInternal
                            else if !env.chanCreateOk then ErrNoMemory
                            else env.activateStatus;
              ch.sent == old(ch.sent) + (if ch.writeStatus == Ok then [SetFormatResp(hdr, result, result == Ok)] else [])
      ensures !privileged || !old(Supported(pl)) ==>
                frameSize == old(frameSize) && fifoBytes == old(fifoBytes) && hasRbChannel == old(hasRbChannel)
      ensures privileged && old(Supported(pl)) ==> frameSize == frameSizeOf(pl.channels, pl.sampleFormat)
      ensures privileged && old(Supported(pl)) && frameSize == 0 ==>
                fifoBytes == old(fifoBytes) && hasRbChannel == old(hasRbChannel)
      ensures privileged && old(Supported(pl)) && frameSize != 0 ==>
                fifoBytes == 1024 && (hasRbChannel <==> env.chanCreateOk && env.activateStatus == Ok)
      ensures vmoRequest == old(vmoRequest) && ringBufferSize == old(ringBufferSize) &&
              bytesPerNotification == old(bytesPerNotification) && usPerNotification == old(usPerNotification) &&
              hasVmo == old(hasVmo) && running == old(running)
    {
      var result: Status;
      if !privileged {
        result := ErrAccessDenied;
      } else {
        var foundOne := false;
        var i := 0;
        while i < |formats| && !foundOne
          invariant 0 <= i <= |formats|
          invariant foundOne <==> exists j :: 0 <= j < i && compatible(pl.fps, pl.channels, pl.sampleFormat, formats[j])
        {
          foundOne := compatible(pl.fps, pl.channels, pl.sampleFormat, formats[i]);
          i := i + 1;
        }
        if !foundOne {
          result := ErrInvalidArgs;
        } else {
          frameSize := frameSizeOf(pl.channels, pl.sampleFormat);
          if frameSize == 0 {
            result := ErrInternal;
          } else {
            hasRbChannel := false;
            fifoBytes := 1024;
            if !env.chanCreateOk {
              result := ErrNoMemory;
            } else {
              result := env.activateStatus;
              hasRbChannel := result == Ok;
            }
          }
        }
      }
      st := ch.Write(SetFormatResp(hdr, result, result == Ok));
    }

    /** OnGetGainLocked. */
    method OnGetGain(ch: Channel, hdr: Hdr) returns (st: Status)
      modifies ch
      ensures st == ch.writeStatus
      ensures ch.sent == old(ch.sent) + (if ch.writeStatus == Ok then [GetGainResp(hdr)] else [])
    {
      st := ch.Write(GetGainResp(hdr));
    }

    /** OnSetGainLocked: with NO_ACK, OK and no response; otherwise muting
        or a gain other than 0 is refused with INVALID_ARGS in the
        response. */
    method OnSetGain(ch: Channel, hdr: Hdr, pl: Payload) returns (st: Status)
      modifies ch
      ensures hdr.noAck ==> st == Ok && ch.sent == old(ch.sent)
      ensures !hdr.noAck ==> st == ch.writeStatus
      ensures !hdr.noAck ==>
                var result := if (pl.muteValid && pl.mute) || (pl.gainValid && !pl.gainIsZero) then ErrInvalidArgs else Ok;
                ch.sent == old(ch.sent) + (if ch.writeStatus == Ok then [SetGainResp(hdr, result)] else [])
    {
      if hdr.noAck {
        return Ok;
      }
      var illegalMute := pl.muteValid && pl.mute;
      var illegalGain := pl.gainValid && !pl.gainIsZero;
      st := ch.Write(SetGainResp(hdr, if illegalMute || illegalGain then ErrInvalidArgs else Ok));
    }

    /** OnPlugDetectLocked: with NO_ACK, OK and no response. */
    method OnPlugDetect(ch: Channel, hdr: Hdr) returns (st: Status)
      modifies ch
      ensures hdr.noAck ==> st == Ok && ch.sent == old(ch.sent)
      ensures !hdr.noAck ==> st == ch.writeStatus
      ensures !hdr.noAck ==> ch.sent == old(ch.sent) + (if ch.writeStatus == Ok then [PlugDetectResp(hdr)] else [])
    {
      if hdr.noAck {
        return Ok;
      }
      st := ch.Write(PlugDetectResp(hdr));
    }

    /** OnGetFifoDepthLocked. */
    method OnGetFifoDepth(ch: Channel, hdr: Hdr) returns (st: Status)
      modifies ch
      ensures st == ch.writeStatus
      ensures ch.sent == old(ch.sent) + (if ch.writeStatus == Ok then [FifoDepthResp(hdr, fifoBytes)] else [])
    {
      st := ch.Write(FifoDepthResp(hdr, fifoBytes));
    }

    /** OnGetBufferLocked: release the old VMO, size the new ring buffer,
        create it, work out the notification spacing, then commit, look up
        and duplicate it; the response carries the VMO only on success, and
        a response that cannot be written releases the buffer again. The
        frame size must be set (a debug assert in the source) and small
        enough that 48 * frame_size_ does not wrap. */
    method OnGetBuffer(ch: Channel, hdr: Hdr, pl: Payload, env: Env) returns (st: Status)
      requires 0 < frameSize && 48 * frameSize < U32_MOD
      modifies this, ch
      ensures frameSize == old(frameSize) && fifoBytes == old(fifoBytes) && hasRbChannel == old(hasRbChannel) &&
              running == old(running)
      ensures vmoRequest == RingBufferRequest(pl.minRingBufferFrames, frameSize, fifoBytes)
      ensures ringBufferSize == env.vmoSize % U32_MOD
      ensures bytesPerNotification == BytesPerNotification(ringBufferSize, pl.notificationsPerRing)
      ensures usPerNotification == UsPerNotification(bytesPerNotification, frameSize)
      ensures var result := BufferResult(env.vmoCreateStatus, env.commitStatus, env.lookupStatus, env.dupStatus);
              ch.sent == old(ch.sent) + (if ch.writeStatus == Ok then [GetBufferResp(hdr, result, result == Ok)] else [])
      ensures st == ch.writeStatus
      ensures hasVmo <==> env.vmoCreateStatus == Ok && ch.writeStatus == Ok
    {
      hasVmo := false;
      vmoRequest := RingBufferRequest(pl.minRingBufferFrames, frameSize, fifoBytes);
      var result := env.vmoCreateStatus;
      hasVmo := result == Ok;
      ringBufferSize := env.vmoSize % U32_MOD;
      bytesPerNotification := BytesPerNotification(ringBufferSize, pl.notificationsPerRing);
      usPerNotification := UsPerNotification(bytesPerNotification, frameSize);
      if result == Ok {
        result := env.commitStatus;
        if result == Ok {
          result := env.lookupStatus;
          if result == Ok {
            result := env.dupStatus;
          }
        }
      }
      st := ch.Write(GetBufferResp(hdr, result, result == Ok));
      if st != Ok {
        hasVmo := false;
      }
    }

    /** OnStartLocked, without its timer and register writes. */
    method OnStart(ch: Channel, hdr: Hdr) returns (st: Status)
      modifies this, ch
      ensures running && st == ch.writeStatus
      ensures ch.sent == old(ch.sent) + (if ch.writeStatus == Ok then [StartResp(hdr)] else [])
      ensures frameSize == old(frameSize) && fifoBytes == old(fifoBytes) && hasRbChannel == old(hasRbChannel) &&
              hasVmo == old(hasVmo)
    {
      running := true;
      st := ch.Write(StartResp(hdr));
    }

    /** OnStopLocked, without its register write. */
    method OnStop(ch: Channel, hdr: Hdr) returns (st: Status)
      modifies this, ch
      ensures !running && st == ch.writeStatus
      ensures ch.sent == old(ch.sent) + (if ch.writeStatus == Ok then [StopResp(hdr)] else [])
      ensures frameSize == old(frameSize) && fifoBytes == old(fifoBytes) && hasRbChannel == old(hasRbChannel) &&
              hasVmo == old(hasVmo)
    {
      running := false;
      st := ch.Write(StopResp(hdr));
    }

    /** ProcessStreamChannel: a failed read is returned as is; a request
        Validate rejects is answered with nothing; an accepted one goes to
        its handler. */
    method ProcessStreamChannel(ch: Channel, readStatus: Status, size: nat, hdr: Hdr, pl: Payload,
                                privileged: bool, env: Env) returns (st: Status)
      requires proto.Valid()
      modifies this, ch
      ensures readStatus != Ok ==> st == readStatus && ch.sent == old(ch.sent)
      ensures readStatus == Ok && Validate(proto, false, size, hdr).Reject? ==>
                st == Validate(proto, false, size, hdr).status && ch.sent == old(ch.sent)
      ensures readStatus != Ok || Validate(proto, false, size, hdr).Reject? || !hdr.cmd.SetFormat? ==>
                frameSize == old(frameSize) && fifoBytes == old(fifoBytes) && hasRbChannel == old(hasRbChannel)
      ensures readStatus == Ok && Validate(proto, false, size, hdr).Handle? && !hdr.cmd.GetFormats? ==>
                |old(ch.sent)| <= |ch.sent| <= |old(ch.sent)| + 1 && ch.sent[..|old(ch.sent)|] == old(ch.sent) &&
                forall i :: |old(ch.sent)| <= i < |ch.sent| ==> ch.sent[i].hdr == hdr
      ensures readStatus == Ok && Validate(proto, false, size, hdr).Handle? && hdr.noAck ==>
                st == Ok && ch.sent == old(ch.sent)
    {
      if readStatus != Ok {
        return readStatus;
      }
      var d := Validate(proto, false, size, hdr);
      if d.Reject? {
        return d.status;
      }
      match hdr.cmd {
        case GetFormats => st := OnGetStreamFormats(ch, hdr);
        case SetFormat => st := OnSetStreamFormat(ch, hdr, pl, privileged, env);
        case GetGain => st := OnGetGain(ch, hdr);
        case SetGain => st := OnSetGain(ch, hdr, pl);
        case PlugDetect => st := OnPlugDetect(ch, hdr);
      }
    }

    /** ProcessRingBufferChannel; a GetBuffer request needs the frame size
        OnGetBufferLocked asserts. */
    method ProcessRingBufferChannel(ch: Channel, readStatus: Status, size: nat, hdr: Hdr, pl: Payload,
                                    env: Env) returns (st: Status)
      requires hdr.cmd.GetBuffer? ==> 0 < frameSize && 48 * frameSize < U32_MOD
      modifies this, ch
      ensures readStatus != Ok ==> st == readStatus && ch.sent == old(ch.sent)
      ensures readStatus == Ok && Validate(proto, true, size, hdr).Reject? ==>
                st == Validate(proto, true, size, hdr).status && ch.sent == old(ch.sent)
      ensures frameSize == old(frameSize) && fifoBytes == old(fifoBytes) && hasRbChannel == old(hasRbChannel)
      ensures readStatus == Ok && Validate(proto, true, size, hdr).Handle? ==>
                |old(ch.sent)| <= |ch.sent| <= |old(ch.sent)| + 1 && ch.sent[..|old(ch.sent)|] == old(ch.sent) &&
                forall i :: |old(ch.sent)| <= i < |ch.sent| ==> ch.sent[i].hdr == hdr
    {
      if readStatus != Ok {
        return readStatus;
      }
      var d := Validate(proto, true, size, hdr);
      if d.Reject? {
        return d.status;
      }
      match hdr.cmd {
        case GetFifoDepth => st := OnGetFifoDepth(ch, hdr);
        case GetBuffer => st := OnGetBuffer(ch, hdr, pl, env);
        case Start => st := OnStart(ch, hdr);
        case Stop => st := OnStop(ch, hdr);
      }
    }
  }
}
