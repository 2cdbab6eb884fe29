/** The TLS write path of s3_pkt.cc, s3_both.cc and ssl_buffer.cc: two output queues over a transport
    that takes as much as it likes. */
module TlsWrite {
  import opened Words
  import opened SslBuffer

  function Concat(records: seq<seq<byte>>): seq<byte> {
    if records == [] then [] else Concat(records[..|records| - 1]) + records[|records| - 1]
  }

  lemma ConcatSnoc(records: seq<seq<byte>>, r: seq<byte>)
    ensures Concat(records + [r]) == Concat(records) + r
  {
    assert (records + [r])[..|records|] == records;
  }

  /** Bytes pass from the front of one queue to the one before it. */
  lemma Passes(wire: seq<byte>, queue: seq<byte>, rest: seq<byte>, n: nat)
    requires n <= |queue|
    ensures (wire + queue[..n]) + queue[n..] + rest == wire + queue + rest
  {
    assert queue == queue[..n] + queue[n..];
  }

  datatype RecordType = AppData | Alert | HandshakeData | CipherChange

  /** max_send_fragment is at most this. */
  const MAX_PLAIN := 0x4000
  /** Two records' headers and encryption overhead. */
  const MAX_OVERHEAD := 2 * (5 + 320)

  class Writer {
    const wb: Buffer
    /** SSL_max_seal_overhead. */
    const overhead: nat
    const maxFragment: nat
    const partialWrite: bool
    const movingBuffer: bool
    /** pending_flight, when there is one, and how much of it has been written. */
    var hasFlight: bool
    var flight: seq<byte>
    var flightOffset: nat
    /** Application bytes written by an SSL_write that has not returned success. */
    var wnum: nat
    /** The record in the write buffer: its plaintext length, type and address. */
    var pending: bool
    var pendingLen: nat
    var pendingType: RecordType
    var pendingBuf: nat
    var shutdown: bool
    /** Every record sealed, in order, and every byte the transport has accepted. */
    ghost var sealed: seq<seq<byte>>
    ghost var wire: seq<byte>
    /** Application plaintext sealed; reported to the caller as written; sealed but not reported. */
    ghost var plain: seq<byte>
    ghost var reported: seq<byte>
    ghost var unreported: seq<byte>
    /** The buffer's 16-bit offset has wrapped before its last byte was written. */
    ghost var lost: bool
    /** What do_ssl3_write has sealed: the type and the plaintext of each record. */
    ghost var written: seq<(RecordType, seq<byte>)>

    ghost predicate Valid()
      reads `hasFlight, `flight, `flightOffset, `pendingLen, wb, wb.buf
    {
      && wb.Valid() && flightOffset <= |flight| && (!hasFlight ==> flight == [] && flightOffset == 0)
      && 0 < maxFragment <= MAX_PLAIN && 0 < pendingLen <= MAX_PLAIN && overhead <= MAX_OVERHEAD
    }

    /** What the transport has, then the write buffer, then the rest of the flight: together the
        records in the order they were sealed. */
    ghost predicate WireOrder()
      reads `wire, `flight, `flightOffset, `sealed, `lost, wb, wb.buf
    {
      wb.Valid() && flightOffset <= |flight| &&
      (!lost ==> wire + wb.Contents() + flight[flightOffset..] == Concat(sealed))
    }

    /** Nothing is lost, and nothing in the write buffer can be. */
    ghost predicate Orderly()
      reads `lost, wb
    {
      !lost && wb.Sound()
    }

    /** The capacity that do_ssl3_write asks for when it seals len bytes is refused, or one at which
        nothing is lost. */
    predicate Roomy(len: int)
      reads `flight, `flightOffset
    {
      len <= 0 || CapSafe(len + overhead + if flightOffset <= |flight| then |flight| - flightOffset else 0)
    }

    ghost function PendingApp(): nat
      reads `pending, `pendingLen, `pendingType
    {
      if pending && pendingType.AppData? then pendingLen else 0
    }

    /** The application data sealed is what has been reported, then what the current write has got
        through, then the record not yet written out. */
    ghost predicate PlainOrder()
      reads this
    {
      Accounted() && |unreported| == wnum + PendingApp()
    }

    ghost predicate Accounted()
      reads `plain, `reported, `unreported
    {
      plain == reported + unreported
    }

    ghost predicate Inv()
      reads this, wb, wb.buf
    {
      Valid() && WireOrder() && PlainOrder()
    }

    /** Exactly then: at any other capacity that is granted, some alignment and some answers of the
        transport lose bytes. */
    lemma RoomyIff(len: nat)
      requires len > 0 && flightOffset <= |flight|
      ensures var cap := len + overhead + |flight| - flightOffset; Roomy(len) <==> cap > U16_MAX || NeverLoses(cap)
    {
      hide NeverLoses;
      var cap := len + overhead + |flight| - flightOffset;
      if cap <= U16_MAX {
        NeverLosesIff(cap);
      }
    }

    constructor (wb: Buffer, overhead: nat, maxFragment: nat, partialWrite: bool, movingBuffer: bool)
      requires wb.Valid() && wb.Sound() && wb.Contents() == [] && 0 < maxFragment <= MAX_PLAIN && overhead <= MAX_OVERHEAD
      ensures Inv() && Orderly() && this.wb == wb && !hasFlight && !pending
      ensures sealed == [] && wire == [] && plain == [] && reported == [] && unreported == [] && written == []
    {
      this.wb, this.overhead, this.maxFragment := wb, overhead, maxFragment;
      this.partialWrite, this.movingBuffer := partialWrite, movingBuffer;
      hasFlight, flight, flightOffset, wnum := false, [], 0, 0;
      pending, pendingLen, pendingType, pendingBuf, shutdown := false, 1, AppData, 0, false;
      sealed, wire, plain, reported, unreported, lost, written := [], [], [], [], [], false, [];
    }

    /** BIO_write: an error, or some of the bytes. */
    method BioWrite(data: seq<byte>) returns (ret: int)
      requires data != []
      modifies `wire
      ensures ret <= |data|
      ensures wire == old(wire) + if ret > 0 then data[..ret] else []
    {
      ret := *;
      if ret > |data| {
        ret := |data|;
      }
      if ret > 0 {
        wire := wire + data[..ret];
      }
    }

    /** tls_seal_record into room for maxOut bytes. */
    method Seal(maxOut: nat) returns (ok: bool, record: seq<byte>)
      ensures ok ==> |record| <= maxOut
    {
      ok, record := *, *;
      ok := ok && |record| <= maxOut;
    }

    /** add_record_to_flight, which is never called while the flight is being written. */
    method AddRecordToFlight(len: nat) returns (ok: bool)
      requires Inv() && flightOffset == 0
      modifies `hasFlight, `flight, `sealed
      ensures Inv() && flightOffset == 0 && (old(Orderly()) ==> Orderly())
      ensures ok ==> |sealed| == |old(sealed)| + 1 && old(sealed) < sealed && flight == old(flight) + sealed[|old(sealed)|]
      ensures !ok ==> sealed == old(sealed) && flight == old(flight)
    {
      hide Concat;
      hasFlight := true;
      var record;
      ok, record := Seal(len + overhead);
      if !ok {
        return;
      }
      if !lost {
        MoreFlight(wire + wb.Contents(), flight, sealed, record);
      }
      flight, sealed := flight + record, sealed + [record];
    }

    /** One turn of tls_write_buffer_flush. */
    method WriteSome() returns (ret: int)
      requires Valid() && WireOrder() && wb.size > 0
      modifies `wire, `lost, wb
      ensures Valid() && WireOrder() && wb.buf == old(wb.buf) && (old(Orderly()) ==> Orderly())
      ensures ret > 0 ==> wb.size < old(wb.size)
      ensures ret <= 0 ==> wb.size == old(wb.size)
    {
      hide Concat;
      ghost var w, queue := wire, wb.Contents();
      ret := BioWrite(wb.buf[wb.offset..wb.offset + wb.size]);
      if ret <= 0 {
        assert wire == w;
        return;
      }
      Passes(w, queue, flight[flightOffset..], ret);
      lost := lost || (wb.offset + ret > U16_MAX && ret < wb.size);
      wb.Consume(ret);
    }

    /** tls_write_buffer_flush. */
    method WriteBufferFlush() returns (ret: int)
      requires Valid() && WireOrder()
      modifies `wire, `lost, wb
      ensures Valid() && WireOrder() && (ret > 0 <==> wb.Contents() == []) && (ret > 0 ==> ret == 1)
      ensures wb.buf == old(wb.buf) || wb.buf == null
      ensures old(Orderly()) ==> Orderly()
    {
      hide Concat;
      while wb.size > 0
        invariant Valid() && WireOrder()
        invariant wb.buf == old(wb.buf)
        invariant old(Orderly()) ==> Orderly()
        decreases wb.size
      {
        ret := WriteSome();
        if ret <= 0 {
          return;
        }
      }
      wb.Clear();
      return 1;
    }

    /** The flight's own bytes, once nothing is in front of them. */
    method FlushFlightBytes() returns (ret: int)
      requires Inv() && wb.Contents() == []
      modifies `wire, `flightOffset
      ensures Inv() && (ret > 0 ==> (!lost ==> wire == Concat(sealed)) && flightOffset == |flight|)
    {
      hide Concat;
      EmptyQueue(wire, flight[flightOffset..]);
      while flightOffset < |flight|
        invariant flightOffset <= |flight|
        invariant !lost ==> wire + flight[flightOffset..] == Concat(sealed)
        decreases |flight| - flightOffset
      {
        ghost var queue := flight[flightOffset..];
        ret := BioWrite(flight[flightOffset..]);
        if ret <= 0 {
          EmptyQueue(wire, queue);
          return;
        }
        assert queue == queue[..ret] + flight[flightOffset + ret..];
        flightOffset := flightOffset + ret;
      }
      EmptyQueue(wire, flight[flightOffset..]);
      return 1;
    }

    /** ssl3_flush_flight: what is in the write buffer goes first. */
    method FlushFlight() returns (ret: int)
      requires Inv()
      modifies `wire, `hasFlight, `flight, `flightOffset, `lost, wb
      ensures Inv() && (ret > 0 ==> !hasFlight)
      ensures ret > 0 && old(hasFlight) && !lost ==> wire == Concat(sealed)
      ensures old(Orderly()) ==> Orderly()
      ensures wb.buf == old(wb.buf) || wb.buf == null
    {
      hide Concat;
      if !hasFlight {
        return 1;
      }
      if shutdown || |flight| > 0x7fff_ffff {
        return -1;
      }
      if wb.size > 0 {
        ret := WriteBufferFlush();
        if ret <= 0 {
          return;
        }
      }
      ret := FlushFlightBytes();
      if ret <= 0 {
        return;
      }
      ret := *;
      if ret <= 0 {
        // BIO_flush failed
        return -1;
      }
      hasFlight, flight, flightOffset := false, [], 0;
      EmptyQueue(wire, []);
      return 1;
    }

    /** ssl3_write_pending: the caller retries what it wrote before. */
    method WritePending(type_: RecordType, addr: nat, len: nat) returns (ret: int)
      requires Valid() && WireOrder() && pending
      modifies `wire, `pending, `lost, wb
      ensures Valid() && WireOrder()
      ensures ret > 0 ==> !pending && ret == pendingLen <= len && pendingType == type_ && wb.Contents() == []
      ensures ret <= 0 ==> pending
      ensures old(Orderly()) ==> Orderly()
      ensures wb.buf == old(wb.buf) || wb.buf == null
    {
      hide Concat;
      if pendingLen > len || (!movingBuffer && pendingBuf != addr) || pendingType != type_ {
        return -1;
      }
      ret := WriteBufferFlush();
      if ret <= 0 {
        return;
      }
      pending := false;
      return pendingLen;
    }

    /** The unflushed flight goes into the write buffer, as a prefix of what is to come. */
    method TakeFlight()
      requires Valid() && WireOrder() && wb.Contents() == [] && |flight| - flightOffset <= wb.cap
      modifies `hasFlight, `flight, `flightOffset, wb, wb.buf
      ensures Valid() && WireOrder() && !hasFlight && wb.buf == old(wb.buf)
      ensures wb.offset == old(wb.offset) && wb.cap == old(wb.cap)
    {
      hide Concat;
      if hasFlight {
        EmptyQueue(wire, flight[flightOffset..]);
        ghost var rest := flight[flightOffset..];
        wb.Write(flight[flightOffset..]);
        assert wb.Contents() == rest;
        hasFlight, flight, flightOffset := false, [], 0;
        EmptyQueue(wire + wb.Contents(), []);
      }
    }

    /** The part of do_ssl3_write that fills the write buffer: the unflushed flight first, then one
        new record. */
    method FillBuffer(type_: RecordType, data: seq<byte>) returns (ok: bool)
      requires Valid() && WireOrder() && wb.Contents() == [] && 0 < |data| <= MAX_PLAIN
      modifies `hasFlight, `flight, `flightOffset, `sealed, `plain, `unreported, `written, wb, wb.buf
      ensures Valid() && WireOrder() && (ok ==> !hasFlight)
      ensures old(Orderly()) && old(Roomy(|data|)) ==> Orderly()
      ensures plain == old(plain) + if ok && type_.AppData? then data else []
      ensures unreported == old(unreported) + if ok && type_.AppData? then data else []
      ensures |sealed| == |old(sealed)| + if ok then 1 else 0
      ensures written == old(written) + if ok then [(type_, data)] else []
      ensures fresh(wb.Memory() - old(wb.Memory()))
    {
      hide Concat;
      var flightLen := |flight| - flightOffset;
      var prefix: nat, mallocOk, address: nat := *, *, *;
      ok := wb.EnsureCap(flightLen + prefix, |data| + overhead + flightLen, mallocOk, address);
      if !ok {
        return;
      }
      TakeFlight();
      var record;
      ok, record := Seal(wb.cap - wb.size);
      if !ok {
        return;
      }
      AppendRecord(record);
      Note(type_, data);
    }

    /** What has been sealed. */
    ghost method Note(type_: RecordType, data: seq<byte>)
      modifies `plain, `unreported, `written
      ensures written == old(written) + [(type_, data)]
      ensures plain == old(plain) + if type_.AppData? then data else []
      ensures unreported == old(unreported) + if type_.AppData? then data else []
    {
      written := written + [(type_, data)];
      if type_.AppData? {
        plain, unreported := plain + data, unreported + data;
      }
    }

    method AppendRecord(record: seq<byte>)
      requires Valid() && WireOrder() && !hasFlight && |record| <= wb.cap - wb.size
      modifies `sealed, wb, wb.buf
      ensures Valid() && WireOrder() && sealed == old(sealed) + [record] && wb.buf == old(wb.buf)
      ensures wb.offset == old(wb.offset) && wb.cap == old(wb.cap)
    {
      hide Concat;
      if !lost {
        MoreSealed(wire, wb.Contents(), flight[flightOffset..], sealed, record);
      }
      wb.Write(record);
      sealed := sealed + [record];
    }

    /** do_ssl3_write: first whatever is still in the write buffer, or else one new record of `data`,
        which then stays in the buffer until the transport has taken all of it. */
    method DoWrite(type_: RecordType, data: seq<byte>, addr: nat) returns (ret: int)
      requires Valid() && WireOrder()
      modifies `wire, `hasFlight, `flight, `flightOffset, `sealed, `plain, `unreported, `lost, `written
      modifies `pending, `pendingLen, `pendingType, `pendingBuf, wb, wb.buf
      ensures Valid() && WireOrder()
      ensures old(Orderly()) && (old(pending) || old(Roomy(|data|))) ==> Orderly()
      ensures old(pending) ==> hasFlight == old(hasFlight) && flight == old(flight) && flightOffset == old(flightOffset)
      ensures !old(pending) && ret > 0 ==> !hasFlight
      ensures fresh(wb.Memory() - old(wb.Memory()))
      ensures ret > 0 ==> !pending && ret <= |data| && (old(pending) ==> ret == old(pendingLen) && old(pendingType) == type_)
      ensures ret > 0 && !old(pending) ==> ret == |data|
      ensures old(pending) ==> plain == old(plain) && unreported == old(unreported) && pendingLen == old(pendingLen)
                               && pendingType == old(pendingType) && (ret <= 0 ==> pending)
      ensures !old(pending) ==>
                var added := if type_.AppData? && (pending || ret > 0) then data else [];
                plain == old(plain) + added && unreported == old(unreported) + added
                && (pending ==> pendingLen == |data| && pendingType == type_)
      ensures written == old(written) + if !old(pending) && (pending || ret > 0) then [(type_, data)] else []
    {
      hide Concat, WireOrder;
      if pending {
        ret := WritePending(type_, addr, |data|);
        return;
      }
      if |data| > MAX_PLAIN || wb.size > 0 {
        return -1;
      }
      if data == [] {
        return 0;
      }
      var ok := FillBuffer(type_, data);
      if !ok {
        return -1;
      }
      pendingLen, pendingBuf, pendingType, pending := |data|, addr, type_, true;
      ret := WritePending(type_, addr, |data|);
    }

    /** What has been sealed for the current write is reported as written. */
    ghost method Report()
      modifies `reported, `unreported
      ensures reported == old(reported) + old(unreported) && unreported == []
      ensures old(Accounted()) ==> Accounted()
    {
      EmptyQueue(reported + unreported, []);
      reported, unreported := reported + unreported, [];
    }

    /** The application data of the next record that ssl3_write_app_data seals, once n bytes are still to
        be written. */
    function NextRecord(n: int): int
      reads `pending, `pendingLen, `pendingType
    {
      var left := n - if pending && pendingType.AppData? then pendingLen else 0;
      if left > maxFragment then maxFragment else left
    }

    /** One turn of the loop of ssl3_write_app_data, with tot bytes written before it. */
    method WriteOne(data: seq<byte>, addr: nat, tot: nat) returns (ret: int)
      requires Valid() && WireOrder() && Accounted() && tot <= |data|
      modifies `wire, `hasFlight, `flight, `flightOffset, `sealed, `plain, `unreported, `lost, `written
      modifies `pending, `pendingLen, `pendingType, `pendingBuf, wb, wb.buf
      ensures Valid() && WireOrder() && Accounted() && fresh(wb.Memory() - old(wb.Memory()))
      ensures ret > 0 ==> !pending && ret <= |data| - tot
      ensures Through(data, old(plain), old(unreported), plain, unreported,
                      old(tot + PendingApp()), if ret > 0 then tot + ret else tot + PendingApp())
      ensures old(Orderly() && Roomy(NextRecord(|data| - tot))) ==>
                Orderly() && (ret > 0 ==> Roomy(NextRecord(|data| - tot - ret)))
      ensures OnlyAppData(old(written), written)
    {
      hide Concat, WireOrder, Valid, Orderly, Roomy;
      var n := |data| - tot;
      var nw := if n > maxFragment then maxFragment else n;
      ret := DoWrite(AppData, data[tot..tot + nw], addr + tot);
      if ret > 0 {
        RoomyWithoutFlight(NextRecord(n - ret));
      }
    }

    /** The loop of ssl3_write_app_data, from the wnum bytes on that are written. */
    method WriteLoop(data: seq<byte>, addr: nat) returns (ret: int)
      requires Valid() && WireOrder() && Accounted() && wnum <= |data|
      modifies this, wb, wb.buf
      ensures Valid() && WireOrder() && Accounted() && fresh(wb.Memory() - old(wb.Memory()))
      ensures shutdown == old(shutdown) && reported == old(reported)
      ensures old(Orderly()) && old(Roomy(NextRecord(|data| - wnum))) ==> Orderly()
      ensures Through(data, old(plain), old(unreported), plain, unreported,
                      old(wnum + PendingApp()), if ret > 0 then ret else wnum + PendingApp())
      ensures ret > 0 ==> ret <= |data| && !pending && wnum == 0 && (!partialWrite ==> ret == |data|)
      ensures OnlyAppData(old(written), written)
    {
      hide Concat, WireOrder, Valid, Slice, Roomy, Orderly, NextRecord, Through, Accounted;
      var tot := wnum;
      ghost var start, plain0, unreported0 := wnum + PendingApp(), plain, unreported;
      ghost var orderly := Orderly() && Roomy(NextRecord(|data| - wnum));
      wnum := 0;
      NothingThrough(data, plain, unreported, start);
      while true
        invariant Valid() && WireOrder() && Accounted() && fresh(wb.Memory() - old(wb.Memory()))
        invariant wnum == 0 && tot <= |data| && reported == old(reported) && shutdown == old(shutdown)
        invariant Through(data, plain0, unreported0, plain, unreported, start, tot + PendingApp())
        invariant orderly ==> Orderly() && Roomy(NextRecord(|data| - tot))
        invariant OnlyAppData(old(written), written)
        decreases |data| - tot
      {
        ghost var before, plain1, unreported1 := tot + PendingApp(), plain, unreported;
        ret := WriteOne(data, addr, tot);
        ghost var now := if ret > 0 then tot + ret else tot + PendingApp();
        ThroughGrows(data, plain0, unreported0, plain1, unreported1, plain, unreported, start, before, now);
        if ret <= 0 {
          wnum := tot;
          return;
        }
        tot := tot + ret;
        if tot == |data| || partialWrite {
          return tot;
        }
      }
    }

    /** One record alone never comes near the capacity at which bytes are lost. */
    lemma RoomyWithoutFlight(len: int)
      requires Valid() && len <= maxFragment
      ensures !hasFlight ==> Roomy(len)
    {
    }

    /** ssl3_write_app_data. A caller that retries with the same data gets every byte sealed once and in
        order: what is reported is what was sealed, and what was sealed and not reported is the start
        of the data to retry with. That holds exactly as long as the data does not get shorter than
        what has been written: then the call is refused, and the count of what has been written lost. */
    method WriteAppData(data: seq<byte>, addr: nat) returns (ret: int)
      requires Valid() && WireOrder() && Accounted()
      modifies this, wb, wb.buf
      ensures Valid() && WireOrder() && Accounted() && fresh(wb.Memory() - old(wb.Memory())) && shutdown == old(shutdown)
      ensures old(PlainOrder()) ==> (PlainOrder() <==> (old(shutdown) || |data| >= old(wnum)))
      ensures old(Orderly()) && old(Roomy(NextRecord(|data| - wnum))) ==> Orderly()
      ensures old(shutdown) || |data| < old(wnum) ==>
                && ret == -1 && plain == old(plain) && reported == old(reported) && unreported == old(unreported)
                && PendingApp() == old(PendingApp()) && wnum == if old(shutdown) then old(wnum) else 0
      ensures !old(shutdown) && |data| >= old(wnum) ==>
                plain == old(plain) + Slice(data, old(wnum + PendingApp()), if ret > 0 then ret else wnum + PendingApp())
      ensures ret > 0 ==> ret <= |data| && unreported == [] && PlainOrder() && (!partialWrite ==> ret == |data|)
      ensures ret <= 0 ==> reported == old(reported)
      ensures OnlyAppData(old(written), written)
      ensures old(PlainOrder() && unreported <= data) ==>
                && unreported <= data
                && (if ret > 0 then reported == old(reported) + data[..ret] else old(unreported) <= unreported)
    {
      hide Concat, WireOrder, Valid, Slice, Roomy, Orderly;
      if shutdown {
        return -1;
      }
      if |data| < wnum {
        wnum := 0;
        return -1;
      }
      ghost var start, plain0, unreported0 := wnum + PendingApp(), plain, unreported;
      ret := WriteLoop(data, addr);
      ThroughMeans(data, plain0, unreported0, plain, unreported, start, if ret > 0 then ret else wnum + PendingApp());
      if ret > 0 {
        Report();
      }
    }

    /** What the lost count leads to: when a retry with shorter data is refused and the caller then goes
        back to the data it began with, everything but the record that was waiting is sealed again,
        from the first byte on, although data[..wnum] had been sealed and written before. */
    method RetryAfterShorter(data: seq<byte>, shorter: seq<byte>, addr: nat) returns (ret: int)
      requires Inv() && !shutdown && unreported <= data && |shorter| < wnum
      modifies this, wb, wb.buf
      ensures Valid() && WireOrder() && Accounted()
      ensures old(unreported) == data[..old(wnum + PendingApp())]
      ensures plain == old(plain) + Slice(data, old(PendingApp()), if ret > 0 then ret else wnum + PendingApp())
      ensures ret > 0 && !partialWrite ==>
                plain == old(reported) + data[..old(wnum + PendingApp())] + data[old(PendingApp())..]
    {
      hide Concat, WireOrder, Valid;
      var refused := WriteAppData(shorter, addr);
      assert refused == -1;
      ret := WriteAppData(data, addr);
    }

    /** ssl3_dispatch_alert. */
    method DispatchAlert(alert: seq<byte>, addr: nat) returns (ret: int)
      requires Inv() && |alert| == 2
      modifies `wire, `hasFlight, `flight, `flightOffset, `sealed, `plain, `unreported, `lost, `written
      modifies `pending, `pendingLen, `pendingType, `pendingBuf, wb, wb.buf
      ensures Inv() && reported == old(reported) && unreported == old(unreported)
      ensures fresh(wb.Memory() - old(wb.Memory()))
      ensures old(Orderly()) && (old(pending) || old(Roomy(2))) ==> Orderly()
      ensures written == old(written) + if !old(pending) && (pending || ret > 0) then [(Alert, alert)] else []
      ensures ret > 0 && old(pending) ==> old(pendingType).Alert?
    {
      hide Concat, WireOrder, Roomy, Orderly;
      ret := DoWrite(Alert, alert, addr);
    }

    /** A write retried as often as it takes, with whatever else the connection does in between: for all
        sequences of events, everything stays in order, and once the write succeeds the application
        data sealed and reported is exactly the start of data, each byte once. `roomy` says that no
        capacity at which bytes could be lost was asked for. */
    method WriteWithRetries(data: seq<byte>, events: seq<Event>) returns (ret: int, ghost roomy: bool)
      requires Inv() && unreported <= data
      requires forall i :: 0 <= i < |events| && events[i].SendAlert? ==> |events[i].alert| == 2
      modifies this, wb, wb.buf
      ensures Inv() && unreported <= data && fresh(wb.Memory() - old(wb.Memory()))
      ensures ret > 0 ==> ret <= |data| && reported == old(reported) + data[..ret] == plain && unreported == []
      ensures ret > 0 && !partialWrite ==> ret == |data|
      ensures ret <= 0 ==> reported == old(reported) && old(unreported) <= unreported
      ensures old(Orderly()) && roomy ==> Orderly()
    {
      hide Concat, WireOrder, Valid, Slice, Roomy, Orderly;
      ret, roomy := -1, true;
      for i := 0 to |events|
        invariant Inv() && unreported <= data && fresh(wb.Memory() - old(wb.Memory()))
        invariant ret <= 0 && reported == old(reported) && old(unreported) <= unreported
        invariant old(Orderly()) && roomy ==> Orderly()
      {
        match events[i] {
          case Retry(addr) =>
            roomy := roomy && Roomy(NextRecord(|data| - wnum));
            ret := WriteAppData(data, addr);
            if ret > 0 {
              return;
            }
          case SendAlert(alert, addr) =>
            roomy := roomy && (pending || Roomy(2));
            var _ := DispatchAlert(alert, addr);
          case Flush =>
            var _ := FlushFlight();
          case AddRecord(len) =>
            if flightOffset == 0 {
              var _ := AddRecordToFlight(len);
            }
        }
      }
    }
  }

  /** What a connection does between the calls of one write: retry it from a buffer at addr, send an
      alert, flush the handshake flight, or add a record to it. */
  datatype Event = Retry(addr: nat) | SendAlert(alert: seq<byte>, addr: nat) | Flush | AddRecord(len: nat)

  /** Bytes i up to j of data, if it has them. */
  function Slice(data: seq<byte>, i: nat, j: int): seq<byte> {
    if i <= j <= |data| then data[i..j] else []
  }

  /** Records of application data have been added to those sealed, and no others. */
  ghost predicate OnlyAppData(before: seq<(RecordType, seq<byte>)>, after: seq<(RecordType, seq<byte>)>) {
    before <= after && forall k :: |before| <= k < |after| ==> after[k].0 == AppData
  }

  /** From plain and unreported to plain1 and unreported1, bytes i up to j of data have been sealed. */
  ghost predicate Through(data: seq<byte>, plain: seq<byte>, unreported: seq<byte>, plain1: seq<byte>, unreported1: seq<byte>,
                          i: nat, j: nat)
  {
    && i <= j && (j <= |data| || j == i)
    && plain1 == plain + Slice(data, i, j) && unreported1 == unreported + Slice(data, i, j)
  }

  lemma NothingThrough(data: seq<byte>, plain: seq<byte>, unreported: seq<byte>, i: nat)
    ensures Through(data, plain, unreported, plain, unreported, i, i)
  {
  }

  lemma ThroughGrows(data: seq<byte>, plain: seq<byte>, unreported: seq<byte>, plain1: seq<byte>, unreported1: seq<byte>,
                     plain2: seq<byte>, unreported2: seq<byte>, i: nat, j: nat, k: nat)
    requires Through(data, plain, unreported, plain1, unreported1, i, j)
    requires Through(data, plain1, unreported1, plain2, unreported2, j, k)
    ensures Through(data, plain, unreported, plain2, unreported2, i, k)
  {
    assert Slice(data, i, j) + Slice(data, j, k) == Slice(data, i, k);
  }

  lemma ThroughMeans(data: seq<byte>, plain: seq<byte>, unreported: seq<byte>, plain1: seq<byte>, unreported1: seq<byte>,
                     i: nat, j: nat)
    requires Through(data, plain, unreported, plain1, unreported1, i, j)
    ensures plain1 == plain + Slice(data, i, j) && unreported <= unreported1
    ensures |unreported| == i ==> |unreported1| == j
    ensures |unreported| == i && unreported <= data ==> unreported1 <= data
  {
    if |unreported| == i && unreported <= data {
      assert j <= |data| ==> unreported1 == data[..j];
    }
  }

  lemma MoreFlight(before: seq<byte>, flight: seq<byte>, sealed: seq<seq<byte>>, record: seq<byte>)
    requires before + flight[0..] == Concat(sealed)
    ensures before + (flight + record)[0..] == Concat(sealed + [record])
  {
    hide Concat;
    ConcatSnoc(sealed, record);
    assert flight[0..] == flight && (flight + record)[0..] == flight + record;
    assert before + (flight + record) == (before + flight) + record;
  }

  lemma MoreSealed(wire: seq<byte>, queue: seq<byte>, rest: seq<byte>, sealed: seq<seq<byte>>, record: seq<byte>)
    requires rest == [] && wire + queue + rest == Concat(sealed)
    ensures wire + (queue + record) + rest == Concat(sealed + [record])
  {
    hide Concat;
    ConcatSnoc(sealed, record);
    assert wire + (queue + record) + [] == (wire + queue + []) + record;
  }

  lemma EmptyQueue(wire: seq<byte>, rest: seq<byte>)
    ensures wire + [] + rest == wire + rest && wire + [] == wire
  {
  }
}
