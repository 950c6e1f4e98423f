/**
 * The extended-attribute operations of the `URL` extension: get and list
 * with their two calls (size first, then fill a buffer of that size), set,
 * remove, and the POSIX error they throw. Each system call is given by the
 * value it returns and the `errno` it leaves behind; the octets the filling
 * call stores are given as well.
 */
module Xattr {
  import opened Wrappers
  import opened Utf8
  import opened XattrList

  /** Swift's `Int32`, the type of `errno`. */
  newtype int32 = x: int | -0x8000_0000 <= x < 0x8000_0000

  /** What one system call reports: its return value and `errno` right after it. */
  datatype SysCall = SysCall(ret: int, errno: int32)

  /** The error domain of `posixError`, Foundation's `NSPOSIXErrorDomain`. */
  const PosixDomain: string := "NSPOSIXErrorDomain"

  /** An `NSError` reduced to its domain and code (the message text is left out). */
  datatype NSError = NSError(domain: string, code: int)

  /** `posixError(err)`: an error in the POSIX domain whose code is `err`. */
  function PosixError(err: int32): (e: NSError)
    ensures e.domain == PosixDomain && e.code == err as int
  {
    NSError(PosixDomain, err as int)
  }

  /** The filling call storing `bytes` at the start of `data`; the rest of `data` keeps its octets. */
  method StoreBytes(data: array<uint8>, bytes: seq<uint8>)
    requires |bytes| <= data.Length
    modifies data
    ensures data[..] == bytes + old(data[|bytes|..])
  {
    forall i | 0 <= i < |bytes| {
      data[i] := bytes[i];
    }
    assert data[..] == bytes + old(data[|bytes|..]);
  }

  /**
   * The two calls shared by get and list: `size` reports the length, a
   * zero-filled buffer of that length is made, `fill` writes `written` into
   * it. Fails with the `errno` of the call that returned a negative value;
   * otherwise yields the whole buffer, of the first call's length.
   */
  method SizeThenFill(size: SysCall, fill: SysCall, written: seq<uint8>) returns (r: Result<seq<uint8>, NSError>)
    requires size.ret >= 0 ==> |written| <= size.ret
    ensures size.ret < 0 ==> r == Failure(PosixError(size.errno))
    ensures size.ret >= 0 && fill.ret < 0 ==> r == Failure(PosixError(fill.errno))
    ensures size.ret >= 0 && fill.ret >= 0 ==> r == Success(written + Zeros(size.ret - |written|))
  {
    if size.ret < 0 {
      return Failure(PosixError(size.errno));
    }
    var data := new uint8[size.ret](_ => NUL);
    var count := data.Length;
    StoreBytes(data, written);
    if fill.ret < 0 {
      return Failure(PosixError(fill.errno));
    }
    assert data[|written|..] == Zeros(count - |written|);
    return Success(data[..]);
  }

  /**
   * `extendedAttribute(forName:)`. It fails exactly when one of its two
   * calls returns a negative value, with that call's `errno`, the size call
   * being checked first. On success the value has the length the size call
   * reported, whatever the fill call returned: what it wrote, then zeros.
   */
  method ExtendedAttribute(size: SysCall, fill: SysCall, written: seq<uint8>) returns (r: Result<seq<uint8>, NSError>)
    requires size.ret >= 0 ==> |written| <= size.ret
    ensures r.Failure? <==> size.ret < 0 || fill.ret < 0
    ensures size.ret < 0 ==> r.error == PosixError(size.errno)
    ensures size.ret >= 0 && fill.ret < 0 ==> r.error == PosixError(fill.errno)
    ensures r.Success? ==> |r.value| == size.ret
    ensures r.Success? ==> r.value[..|written|] == written && forall i :: |written| <= i < |r.value| ==> r.value[i] == NUL
  {
    r := SizeThenFill(size, fill, written);
  }

  /**
   * `listExtendedAttributes()`. The same two calls and the same error rules
   * as `ExtendedAttribute`; on success the names of the whole buffer, which
   * are the names of the octets `listxattr` wrote: the zero padding adds none.
   */
  method ListExtendedAttributes(size: SysCall, fill: SysCall, written: seq<uint8>) returns (r: Result<seq<string>, NSError>)
    requires size.ret >= 0 ==> |written| <= size.ret
    ensures r.Failure? <==> size.ret < 0 || fill.ret < 0
    ensures size.ret < 0 ==> r.error == PosixError(size.errno)
    ensures size.ret >= 0 && fill.ret < 0 ==> r.error == PosixError(fill.errno)
    ensures r.Success? ==> r.value == AttributeNames(written + Zeros(size.ret - |written|))
    ensures r.Success? ==> r.value == AttributeNames(written)
  {
    var data := SizeThenFill(size, fill, written);
    match data
    case Failure(e) =>
      r := Failure(e);
    case Success(buf) =>
      AttributeNamesIgnorePadding(written, size.ret - |written|);
      r := Success(AttributeNames(buf));
  }

  /** `guard result == 0 else { throw URL.posixError(errno) }`. */
  function RequireZero(call: SysCall): (r: Outcome<NSError>)
    ensures r.Pass? <==> call.ret == 0
    ensures r.Fail? ==> r.error == PosixError(call.errno)
  {
    if call.ret == 0 then Pass else Fail(PosixError(call.errno))
  }

  /**
   * `setExtendedAttribute(data:forName:)`: succeeds exactly when `setxattr`
   * returns 0; any other value, positive ones included, throws its `errno`.
   */
  function SetExtendedAttribute(data: seq<uint8>, name: string, call: SysCall): (r: Outcome<NSError>)
    ensures r.Pass? <==> call.ret == 0
    ensures r.Fail? ==> r.error.domain == PosixDomain && r.error.code == call.errno as int
  {
    RequireZero(call)
  }

  /**
   * `removeExtendedAttribute(forName:)`: succeeds exactly when `removexattr`
   * returns 0; any other value throws its `errno`.
   */
  function RemoveExtendedAttribute(name: string, call: SysCall): (r: Outcome<NSError>)
    ensures r.Pass? <==> call.ret == 0
    ensures r.Fail? ==> r.error.domain == PosixDomain && r.error.code == call.errno as int
  {
    RequireZero(call)
  }
}
