/** child_fault_handler of src/core/runner.c: the record a dying child writes with no library help,
    and what the parent makes of it. */
module Crash {
  import opened Basics
  import opened Bytes
  import opened Wire
  import opened Runner

  const CHILD_CRASH := 8

  datatype Signal = Segv | Bus | Abrt | Fpe | Ill | Unnamed

  /** ASCII text as bytes. */
  function Ascii(s: string): (bs: seq<byte>)
    requires forall i :: 0 <= i < |s| ==> 0 < s[i] as int < 128
    ensures |bs| == |s| && 0 !in bs
  {
    seq(|s|, i requires 0 <= i < |s| => s[i] as int)
  }

  function Name(sig: Signal): seq<byte> {
    match sig
    case Segv => Ascii("SIGSEGV")
    case Bus => Ascii("SIGBUS")
    case Abrt => Ascii("SIGABRT")
    case Fpe => Ascii("SIGFPE")
    case Ill => Ascii("SIGILL")
    case Unnamed => Ascii("signal")
  }

  function Prefix(): seq<byte> {
    Ascii("child crashed: ")
  }

  /** What fits the text field with room for a NUL. */
  function Clipped(s: seq<byte>): (c: seq<byte>)
    ensures c <= s && |c| == if |s| <= 191 then |s| else 191
  {
    if |s| < TEXT_LEN then s else s[..TEXT_LEN - 1]
  }

  /** The hand-rolled string copies into a zeroed field: as much of both as fits, and a NUL. */
  method CopyText(prefix: seq<byte>, name: seq<byte>, text: array<byte>)
    requires text.Length == TEXT_LEN && text[..] == Fill(0, TEXT_LEN)
    requires 0 !in prefix && 0 !in name
    modifies text
    ensures text[..] == Clipped(prefix + name) + Fill(0, TEXT_LEN - |Clipped(prefix + name)|)
    ensures CStr(text[..]) == Clipped(prefix + name)
  {
    hide CStr;
    var i := CopyPart(prefix, text, 0);
    ghost var j := i;
    i := CopyPart(name, text, i);
    text[i] := 0;
    TwoParts(prefix, name, text[..], j, i);
  }

  /** A zeroed field after both copies. */
  lemma TwoParts(prefix: seq<byte>, name: seq<byte>, text: seq<byte>, j: nat, i: nat)
    requires |text| == TEXT_LEN && 0 !in prefix && 0 !in name
    requires j == (if |prefix| < TEXT_LEN then |prefix| else TEXT_LEN - 1)
    requires i == (if j + |name| < TEXT_LEN then j + |name| else TEXT_LEN - 1)
    requires text[..i] == prefix[..j] + name[..i - j] && forall k :: i <= k < TEXT_LEN ==> text[k] == 0
    ensures text == Clipped(prefix + name) + Fill(0, TEXT_LEN - |Clipped(prefix + name)|)
    ensures CStr(text) == Clipped(prefix + name)
  {
    hide CStr;
    var all := Clipped(prefix + name);
    assert text[..i] == all;
    assert text == text[..i] + Fill(0, TEXT_LEN - i);
    NoZero(prefix, name);
    CStrPadded(all, TEXT_LEN - |all|);
  }

  /** One of the two copy loops, from position `at` on. */
  method CopyPart(s: seq<byte>, text: array<byte>, at: nat) returns (i: nat)
    requires text.Length == TEXT_LEN && at < TEXT_LEN
    requires forall k :: at <= k < TEXT_LEN ==> text[k] == 0
    modifies text
    ensures i == (if at + |s| < TEXT_LEN then at + |s| else TEXT_LEN - 1)
    ensures text[..i] == old(text[..at]) + s[..i - at]
    ensures forall k :: i <= k < TEXT_LEN ==> text[k] == 0
  {
    i := at;
    var p := 0;
    while p < |s| && i < TEXT_LEN - 1
      invariant p <= |s| && i == at + p < TEXT_LEN
      invariant text[..i] == old(text[..at]) + s[..p]
      invariant forall k :: i <= k < TEXT_LEN ==> text[k] == 0
    {
      text[i] := s[p];
      i, p := i + 1, p + 1;
    }
  }

  lemma NoZero(prefix: seq<byte>, name: seq<byte>)
    requires 0 !in prefix && 0 !in name
    ensures 0 !in Clipped(prefix + name)
  {
  }

  function CrashEvent(sig: Signal): (e: Event)
    ensures Fits(e) && e.kind == CHILD_CRASH && !IsCall(e.kind) && e.kind != DONE
  {
    var text := Prefix() + Name(sig);
    Event(0, CHILD_CRASH, 0, Fill(0, 4), 0, 0, Fill(0, KEY_LEN), text + Fill(0, TEXT_LEN - |text|))
  }

  /** The handler up to its raise: one write, whatever comes of it. */
  method FaultHandler(out: WriteEnd?, sig: Signal) returns (sent: nat)
    modifies out
    ensures out == null ==> sent == 0
    ensures out != null ==> sent <= RECORD && out.bytes == old(out.bytes) + Encode(CrashEvent(sig))[..sent]
    ensures out != null && out.atomic ==> sent == 0 || sent == RECORD
    ensures out != null && out.atomic && out.steady && old(out.signals) == 0 ==> sent == RECORD
  {
    hide Encode, CStr;
    var text := new byte[TEXT_LEN](_ => 0);
    assert text[..] == Fill(0, TEXT_LEN);
    CopyText(Prefix(), Name(sig), text);
    var e := Event(0, CHILD_CRASH, 0, Fill(0, 4), 0, 0, Fill(0, KEY_LEN), text[..]);
    assert e == CrashEvent(sig);
    sent := 0;
    if out != null {
      var w, _ := out.Write(Encode(e));
      if w > 0 { sent := w; }
    }
  }

  /** The message a reader of the crash record sees. */
  lemma CrashText(sig: Signal)
    ensures var e := CrashEvent(sig); e.tag == 0 && e.ts == 0 && e.num == 0 && CStr(e.key) == []
    ensures CrashEvent(sig).kind == 8 && CStr(CrashEvent(sig).text) ==
            Ascii("child crashed: ") + match sig
                                       case Segv => Ascii("SIGSEGV")
                                       case Bus => Ascii("SIGBUS")
                                       case Abrt => Ascii("SIGABRT")
                                       case Fpe => Ascii("SIGFPE")
                                       case Ill => Ascii("SIGILL")
                                       case Unnamed => Ascii("signal")
  {
    var text := Prefix() + Name(sig);
    CStrPadded(text, TEXT_LEN - |text|);
  }

  /** A child that emitted `es` and then died having written `k` bytes of its crash record: the
      parent gets all of `es`, and the crash record exactly when it is whole. A cut one ends the
      run as damage; nothing is skipped and no boundary is sought, whatever the handler's comment
      says. */
  lemma CrashSeen(es: seq<Event>, sig: Signal, k: nat)
    requires AllFit(es) && NoDone(es) && k <= RECORD
    ensures Deliver(Stream(es) + Encode(CrashEvent(sig))[..k]) ==
            if k == RECORD then Delivery(es + [CrashEvent(sig)], Eof)
            else Delivery(es, if k == 0 then Eof else Corrupt)
  {
    hide Deliver, Encode, CrashEvent, Fits;
    var e := CrashEvent(sig);
    if k == RECORD {
      StreamAppend(es, [e]);
      OneRecord(e);
      DeliverStream(es + [e], []);
      Empty(Stream(es + [e]));
      assert Encode(e)[..k] == Encode(e);
    } else {
      DeliverStream(es, Encode(e)[..k]);
    }
  }
}
