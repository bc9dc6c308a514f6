/** The storage device of the update package, with its head and checksum updated in place. */
module PackageDevice {
  import opened Basics
  import opened PackageHead
  import S = PackageStream

  /** struct pack_checksum_tag_s, with the hash as the bytes absorbed since its reset. */
  class PackChecksum {
    var absorbed: bytes
    var offset: nat
    var offsetFlag: bool

    constructor (header: bytes)
      ensures State() == S.Checksum(header, 0, false)
    {
      absorbed, offset, offsetFlag := header, 0, false;
    }

    function State(): S.Checksum
      reads this
    {
      S.Checksum(absorbed, offset, offsetFlag)
    }

    /** pack_checksum_update_data; headLen is pack_head_get_head_len. */
    method Update(header: bytes, at: nat, data: bytes, r: S.Restored) returns (ok: bool)
      modifies this
      ensures State() == S.Update(old(State()), header, at, data, r).checksum
      ensures ok == S.Update(old(State()), header, at, data, r).ok
    {
      if |data| == 0 {
        return true;
      }
      if (offsetFlag && offset == at) || |header| == at {
        absorbed := absorbed + data;
        offsetFlag := true;
        offset := at + |data|;
        return true;
      }
      absorbed := header;
      absorbed := absorbed + r.read;
      if !r.ok {
        return false;
      }
      absorbed := absorbed + data;
      offsetFlag := true;
      offset := at + |data|;
      return true;
    }
  }

  /** pack_head_s. A buffer is as long as the header it is for; checksumPos is the saved checksum value. */
  class PackHead {
    var buff: array?<byte>
    var storedLen: nat
    var headLen: nat
    var checksum: PackChecksum?
    var checksumPos: Option<bytes>
    var flashType: Option<nat>

    ghost predicate Valid()
      reads this, buff
    {
      && (buff == null ==> headLen == 0)
      && (buff != null ==> buff.Length == headLen >= HEADER_MIN_LEN)
      && storedLen <= headLen
    }

    ghost function State(): S.Head
      requires Valid()
      reads this, buff, checksum
    {
      S.Head(if buff == null then [] else buff[..storedLen], headLen, checksumPos,
             if checksum == null then None else Some(checksum.State()), flashType)
    }

    constructor ()
      ensures Valid() && State() == S.NEW_HEAD && buff == null && checksum == null
    {
      buff, storedLen, headLen, checksum, checksumPos, flashType := null, 0, 0, null, None, None;
    }

    /** The buffer for the fixed part, the first time it is needed. */
    method Reserve()
      requires Valid()
      modifies this`buff, this`headLen
      ensures Valid() && buff != null && (buff == old(buff) || fresh(buff))
      ensures State() == old(State()).(headLen := if old(headLen) == 0 then HEADER_MIN_LEN else old(headLen))
    {
      if buff == null {
        buff := new byte[HEADER_MIN_LEN];
        headLen := HEADER_MIN_LEN;
      }
    }

    /** The buffer replaced by one for the whole header. */
    method Grow(len: nat)
      requires Valid() && buff != null && len > headLen
      modifies this`buff, this`headLen
      ensures Valid() && buff != null && fresh(buff) && State() == old(State()).(headLen := len)
    {
      var bigger := new byte[len];
      forall i | 0 <= i < storedLen {
        bigger[i] := buff[i];
      }
      assert bigger[..storedLen] == buff[..storedLen];
      buff := bigger;
      headLen := len;
    }

    /** memcpy of chunk[..n] into the buffer. */
    method Copy(offset: nat, chunk: bytes, n: nat)
      requires Valid() && buff != null && n <= |chunk| && offset + n <= headLen && offset <= storedLen
      modifies this`storedLen, buff
      ensures Valid() && State() == old(State()).(stored := old(State()).stored[..offset] + chunk[..n])
    {
      ghost var before := buff[..offset];
      assert State().stored[..offset] == before;
      forall i | 0 <= i < n {
        buff[offset + i] := chunk[i];
      }
      storedLen := offset + n;
      assert buff[..storedLen] == before + chunk[..n];
    }

    method GetDword(i: nat) returns (w: nat)
      requires Valid() && buff != null && i + 4 <= headLen
      ensures w == Dword(buff[..], i)
      ensures i + 4 <= storedLen ==> w == Dword(buff[..storedLen], i)
      ensures w < DWORD_VALUES && buff[i..i + 4] == Encoded(w, 4)
    {
      hide Encoded;
      var a: int, b: int, c: int := buff[i], buff[i + 1], buff[i + 2];
      w := a * 0x1_00_0000 + b * 0x1_0000 + c * 0x100 + buff[i + 3];
      DwordExactly(buff[..], i, w);
      assert buff[..][i..i + 4] == buff[i..i + 4];
    }

    method GetWord(i: nat) returns (w: nat)
      requires Valid() && buff != null && i + 2 <= headLen
      ensures w == Word(buff[..], i)
      ensures w < WORD_VALUES && buff[i..i + 2] == Encoded(w, 2)
    {
      hide Encoded;
      var a: int := buff[i];
      w := a * 0x100 + buff[i + 1];
      WordExactly(buff[..], i, w);
      assert buff[..][i..i + 2] == buff[i..i + 2];
    }

    method ParseHeadLen(offset: nat, chunk: bytes) returns (ok: bool, used: nat)
      requires Valid()
      modifies this, buff
      ensures Valid() && (buff == old(buff) || fresh(buff)) && checksum == old(checksum)
      ensures S.Parsed(ok, State(), used) == S.ParseHeadLen(old(State()), offset, chunk)
    {
      hide Dword;
      used := 0;
      if offset >= HEADER_MIN_LEN {
        return true, 0;
      }
      if offset > storedLen {
        return false, 0;
      }
      Reserve();
      used := S.Min(HEADER_MIN_LEN - offset, |chunk|);
      Copy(offset, chunk, used);
      if storedLen < HEADER_MIN_LEN {
        return true, used;
      }
      var version := GetDword(0);
      var len := GetDword(4);
      var total := GetDword(8);
      if version != 0 || len < HEADER_MIN_LEN || len >= total || len > MAX_HEAD_LEN {
        storedLen := 0;
        return false, used;
      }
      if len > headLen {
        Grow(len);
      }
      return true, used;
    }

    /** The value is saved in place of an earlier one, and zeroed in the buffer. */
    method HandleChecksumTlv(start: nat, len: nat)
      requires Valid() && buff != null && start + len <= headLen
      modifies this`checksumPos, buff
      ensures Valid() && checksumPos == (if len > 0 then Some(old(buff[start..start + len])) else None)
      ensures forall i :: 0 <= i < headLen ==> buff[i] == if start <= i < start + len then 0 else old(buff[i])
    {
      checksumPos := None;
      if len > 0 {
        checksumPos := Some(buff[start..start + len]);
      }
      forall i | start <= i < start + len {
        buff[i] := 0;
      }
    }

    method HandleBinTypeTlv(start: nat) returns (ok: bool)
      requires Valid() && buff != null && start <= headLen
      modifies this`flashType
      ensures Valid() && ok == (start + 4 <= headLen && Dword(buff[..], start) < FLASH_TYPES)
      ensures flashType == if ok then Some(Dword(buff[..], start)) else old(flashType)
    {
      if start + 4 > headLen {
        return false;
      }
      var flash := GetDword(start);
      if flash >= FLASH_TYPES {
        return false;
      }
      flashType := Some(flash);
      return true;
    }

    /** One turn of the walk over the TLV at cur. */
    method HandleTlv(cur: nat, kind: nat, len: nat) returns (ok: bool)
      requires Valid() && buff != null && cur + 4 <= headLen && TlvAt(buff[..], cur) == Tlv(cur, kind, len)
      requires cur + 4 + len <= headLen
      modifies this`checksumPos, this`flashType, buff
      ensures Valid()
      ensures Walk(old(buff[..]), cur, old(checksumPos), old(flashType)) ==
        if ok then Walk(buff[..], cur + 4 + len, checksumPos, flashType)
        else Walked(false, buff[..], checksumPos, flashType)
    {
      hide Walk, TlvAt, Dword;
      ghost var b, t := buff[..], TlvAt(buff[..], cur);
      WalkTurn(b, cur, checksumPos, flashType);
      ok := true;
      if kind == TYPE_CHECKSUM {
        HandleChecksumTlv(cur + 4, len);
        assert buff[..] == Blanked(b, t);
      } else if kind == TYPE_BIN {
        ok := HandleBinTypeTlv(cur + 4);
      }
    }

    method ParseTlvs() returns (ok: bool)
      requires Valid() && buff != null && storedLen == headLen
      modifies this`checksumPos, this`flashType, this`checksum, buff
      ensures Valid() && (checksum == old(checksum) || fresh(checksum))
      ensures S.Parsed(ok, State(), 0) == S.ParseTlvs(old(State()))
    {
      hide Walk;
      assert buff[..] == buff[..storedLen];
      var cur: nat, left: nat := HEADER_MIN_LEN, headLen - HEADER_MIN_LEN;
      while left > 0
        invariant Valid() && cur + left == headLen && checksum == old(checksum)
        invariant checksum != null ==> checksum.State() == old(checksum.State())
        invariant Walk(buff[..], cur, checksumPos, flashType) ==
          old(Walk(buff[..], HEADER_MIN_LEN, checksumPos, flashType))
      {
        ok := false;
        if left >= 4 {
          var kind := GetWord(cur);
          var len := GetWord(cur + 2);
          if left >= 4 + len {
            ok := HandleTlv(cur, kind, len);
            cur, left := cur + 4 + len, left - (4 + len);
          } else {
            WalkStops(buff[..], cur, checksumPos, flashType);
          }
        } else {
          WalkStops(buff[..], cur, checksumPos, flashType);
        }
        if !ok {
          assert buff[..] == buff[..storedLen];
          return;
        }
      }
      WalkStops(buff[..], cur, checksumPos, flashType);
      assert buff[..] == buff[..storedLen];
      if checksumPos == None {
        return false;
      }
      checksum := new PackChecksum(buff[..headLen]);
      return true;
    }

    /** pack_head_parse after the fixed part took `used` bytes of the chunk. */
    method ParseRest(at: nat, rest: bytes, used: nat) returns (ok: bool, taken: nat)
      requires Valid()
      modifies this, buff
      ensures Valid() && buff == old(buff) && (checksum == old(checksum) || fresh(checksum))
      ensures S.Parsed(ok, State(), taken) == S.ParseRest(old(State()), at, rest, used)
    {
      hide S.ParseTlvs, Dword;
      if |rest| == 0 && storedLen < headLen {
        return true, used;
      }
      if headLen < HEADER_MIN_LEN || buff == null || (storedLen < headLen && at > storedLen) {
        return false, 0;
      }
      if at >= headLen {
        return true, 0;
      }
      var n := S.Min(|rest|, headLen - at);
      Copy(at, rest, n);
      if storedLen < headLen {
        return true, used + n;
      }
      var total := GetDword(8);
      if total <= headLen {
        return false, used + n;
      }
      ok := ParseTlvs();
      taken := used + n;
    }

    method Parse(offset: nat, chunk: bytes) returns (ok: bool, used: nat)
      requires Valid()
      modifies this, buff
      ensures Valid() && (buff == old(buff) || fresh(buff)) && (checksum == old(checksum) || fresh(checksum))
      ensures S.Parsed(ok, State(), used) == S.Parse(old(State()), offset, chunk)
    {
      hide S.ParseHeadLen, S.ParseRest;
      ok, used := ParseHeadLen(offset, chunk);
      if !ok {
        return false, 0;
      }
      ok, used := ParseRest(offset + used, chunk[used..], used);
    }

    predicate Done()
      reads this
    {
      headLen >= HEADER_MIN_LEN && storedLen == headLen
    }

    method Check(total: nat, check: (bytes, bytes) -> bool) returns (ok: bool)
      requires Valid()
      ensures ok == S.HeadCheck(State(), total, check)
    {
      if !Done() {
        return false;
      }
      var declared := GetDword(8);
      if total != declared {
        return false;
      }
      if checksumPos == None || checksum == null {
        return true;
      }
      return check(checksum.absorbed, checksumPos.value);
    }

    /** pack_head_destroy; the flash type belongs to the device and stays. */
    method Destroy()
      requires Valid()
      modifies this
      ensures Valid() && State() == S.NEW_HEAD.(flash := old(State()).flash) && buff == null && checksum == null
    {
      buff, storedLen, headLen, checksum, checksumPos := null, 0, 0, null, None;
    }
  }

  /** pack_storage_device_s; log holds what pack_wr_write was given, in order. */
  class StorageDevice {
    const head: PackHead
    var log: seq<(nat, bytes)>

    ghost predicate Valid()
      reads this, head, head.buff
    {
      head.Valid()
    }

    ghost function State(): S.Device
      requires Valid()
      reads this, head, head.buff, head.checksum
    {
      S.Device(head.State(), log)
    }

    constructor ()
      ensures Valid() && State() == S.NEW_DEVICE
    {
      head := new PackHead();
      log := [];
    }

    method WriteSoftware(offset: nat, chunk: bytes, accepted: bool, r: S.Restored) returns (ok: bool)
      requires Valid() && offset < DWORD_VALUES
      modifies this, head, head.buff, head.checksum
      ensures Valid()
      ensures S.Written(ok, State()) == S.Write(old(State()), offset, chunk, accepted, r)
    {
      hide S.Parse, S.Deliver;
      if |chunk| == 0 {
        return false;
      }
      var used;
      ok, used := head.Parse(offset, S.Short(chunk));
      if !ok {
        return false;
      }
      if used == |chunk| {
        return true;
      }
      if !accepted {
        return false;
      }
      Deliver((offset + used) % DWORD_VALUES, S.Short(chunk[used..]), r);
      return true;
    }

    /** What the header did not use goes to the writer, and then to the checksum. */
    method Deliver(at: nat, rest: bytes, r: S.Restored)
      requires Valid()
      modifies this, head.checksum
      ensures Valid() && State() == S.Deliver(old(State()).head, old(log), at, rest, r)
    {
      hide S.Update;
      var headLen := if head.Done() then head.headLen else 0;
      log := log + [(S.Subtract32(at, headLen), rest)];
      if head.checksum != null {
        var header := if head.Done() && head.buff != null then head.buff[..head.headLen] else [];
        var updated := head.checksum.Update(header, at, rest, r);
      }
    }

    method WriteSoftwareEnd(downloaded: bool, total: nat, ended: bool, check: (bytes, bytes) -> bool) returns (ok: bool)
      requires Valid()
      modifies head
      ensures Valid()
      ensures S.Written(ok, State()) == S.WriteEnd(old(State()), downloaded, total, ended, check)
    {
      ok := ended;
      if ended && downloaded {
        ok := head.Check(total, check);
      }
      if downloaded {
        head.Destroy();
      }
    }
  }
}
