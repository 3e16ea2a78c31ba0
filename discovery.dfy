/**
 * Camera discovery (camera_enumerate): which device-interface paths belong to
 * the camera, and how matches are counted and copied into the caller's array.
 * The SetupAPI iteration is abstracted to the sequence of interface paths it
 * yields, None standing for an interface whose detail could not be fetched.
 */
module Discovery {
  import opened Protocol
  import opened Session

  const VENDOR_ID: nat := 0x2CE3
  const PRODUCT_ID: nat := 0x3828

  /** Characters of a path the WinUSB pass inspects (a 512-byte buffer with its NUL). */
  const LOWERED_PATH_CAP: nat := 511
  /** Characters of a path copied into an entry (a 256-byte field with its NUL). */
  const DEVICE_PATH_CAP: nat := 255

  const WINUSB_DESCRIPTION: string := "Useeplus SuperCamera (WinUSB)"
  const USB_DEVICE_DESCRIPTION: string := "Useeplus SuperCamera (non-WinUSB)"

  // ---------------------------------------------------------------------
  // Strings.
  // ---------------------------------------------------------------------

  /** tolower in the C locale: only 'A'..'Z' change. */
  function ToLower(c: char): (l: char)
    ensures 'A' <= c <= 'Z' ==> l as int == c as int + 32
    ensures !('A' <= c <= 'Z') ==> l == c
    ensures !('A' <= l <= 'Z')
  {
    if 'A' <= c <= 'Z' then (c as int + 32) as char else c
  }

  function Lower(s: string): (t: string)
    ensures |t| == |s| && forall i :: 0 <= i < |s| ==> t[i] == ToLower(s[i])
  {
    seq(|s|, i requires 0 <= i < |s| => ToLower(s[i]))
  }

  /** What strncpy into an n + 1 byte buffer keeps of a NUL-free string. */
  function Truncated(s: string, n: nat): (t: string)
    ensures |t| <= n && |t| <= |s| && t == s[..|t|]
    ensures |s| <= n ==> t == s
  {
    if |s| <= n then s else s[..n]
  }

  predicate OccursAt(s: string, pat: string, i: nat)
  {
    i + |pat| <= |s| && s[i..i + |pat|] == pat
  }

  /** strstr(s, pat) != NULL. */
  function Contains(s: string, pat: string): (b: bool)
    ensures b <==> exists i :: 0 <= i <= |s| && OccursAt(s, pat, i)
    decreases |s|
  {
    if |s| < |pat| then false
    else if s[..|pat|] == pat then
      assert OccursAt(s, pat, 0);
      true
    else
      var rest := Contains(s[1..], pat);
      assert forall i :: 0 <= i <= |s| - 1 && OccursAt(s[1..], pat, i) ==> OccursAt(s, pat, i + 1) by {
        forall i | 0 <= i <= |s| - 1 && OccursAt(s[1..], pat, i)
          ensures OccursAt(s, pat, i + 1)
        {
          assert s[1..][i..i + |pat|] == s[i + 1..i + 1 + |pat|];
        }
      }
      assert forall i :: 1 <= i <= |s| && OccursAt(s, pat, i) ==> OccursAt(s[1..], pat, i - 1) by {
        forall i | 1 <= i <= |s| && OccursAt(s, pat, i)
          ensures OccursAt(s[1..], pat, i - 1)
        {
          assert s[1..][i - 1..i - 1 + |pat|] == s[i..i + |pat|];
        }
      }
      rest
  }

  // ---------------------------------------------------------------------
  // The two matching rules.
  // ---------------------------------------------------------------------

  /**
   * The WinUSB pass: the first LOWERED_PATH_CAP characters of the path,
   * lower-cased, name the vendor, the product and interface 1.
   */
  predicate IsWinUsbCameraPath(path: string)
  {
    var l := Lower(Truncated(path, LOWERED_PATH_CAP));
    Contains(l, "vid_2ce3") && Contains(l, "pid_3828") && Contains(l, "mi_01")
  }

  /** The USB-device fallback: the path names vendor and product, case-sensitively. */
  predicate IsUsbDeviceCameraPath(path: string)
  {
    Contains(path, "vid_2ce3") && Contains(path, "pid_3828")
  }

  datatype Rule = WinUsbInterface | UsbDevice

  predicate Accepts(rule: Rule, path: string)
  {
    match rule
    case WinUsbInterface => IsWinUsbCameraPath(path)
    case UsbDevice => IsUsbDeviceCameraPath(path)
  }

  /** Lower-casing commutes with truncation. */
  lemma LowerTruncated(s: string, n: nat)
    ensures Lower(Truncated(s, n)) == Truncated(Lower(s), n)
  {
  }

  /** Lower-casing twice is lower-casing once. */
  lemma LowerIsIdempotent(s: string)
    ensures Lower(Lower(s)) == Lower(s)
  {
  }

  /**
   * The WinUSB rule ignores case: two paths equal up to case are both
   * accepted or both rejected.
   */
  lemma {:induction false} WinUsbMatchIgnoresCase(p: string, q: string)
    requires Lower(p) == Lower(q)
    ensures IsWinUsbCameraPath(p) <==> IsWinUsbCameraPath(q)
  {
    LowerTruncated(p, LOWERED_PATH_CAP);
    LowerTruncated(q, LOWERED_PATH_CAP);
  }

  /** A path the fallback accepts is accepted by the WinUSB rule once it names interface 1 early enough. */
  lemma {:induction false} FallbackMatchesAreCameraPaths(path: string)
    requires |path| <= LOWERED_PATH_CAP && IsUsbDeviceCameraPath(path) && Contains(path, "mi_01")
    ensures IsWinUsbCameraPath(path)
  {
    assert Truncated(path, LOWERED_PATH_CAP) == path;
    LowerPreservesLowerCaseOccurrence(path, "vid_2ce3");
    LowerPreservesLowerCaseOccurrence(path, "pid_3828");
    LowerPreservesLowerCaseOccurrence(path, "mi_01");
  }

  predicate NoCapitals(s: string)
  {
    forall i :: 0 <= i < |s| ==> !('A' <= s[i] <= 'Z')
  }

  /** A pattern with no capital letters still occurs once the text is lower-cased. */
  lemma LowerPreservesLowerCaseOccurrence(s: string, pat: string)
    requires NoCapitals(pat) && Contains(s, pat)
    ensures Contains(Lower(s), pat)
  {
    var i :| 0 <= i <= |s| && OccursAt(s, pat, i);
    assert Lower(s)[i..i + |pat|] == Lower(s[i..i + |pat|]);
    assert OccursAt(Lower(s), pat, i);
  }

  // ---------------------------------------------------------------------
  // Counting and filling.
  // ---------------------------------------------------------------------

  datatype DeviceInfo = DeviceInfo(vendorId: nat, productId: nat, devicePath: string, description: string)

  /** The entry written for a matching path. */
  function Entry(path: string, rule: Rule): (e: DeviceInfo)
    ensures e.vendorId == VENDOR_ID && e.productId == PRODUCT_ID
    ensures |e.devicePath| <= DEVICE_PATH_CAP && |e.devicePath| <= |path| && e.devicePath == path[..|e.devicePath|]
  {
    DeviceInfo(VENDOR_ID, PRODUCT_ID, Truncated(path, DEVICE_PATH_CAP),
               if rule == WinUsbInterface then WINUSB_DESCRIPTION else USB_DEVICE_DESCRIPTION)
  }

  /** The paths of the interfaces the rule accepts, in enumeration order. */
  function MatchingPaths(paths: seq<Option<string>>, rule: Rule): (m: seq<string>)
    ensures |m| <= |paths|
  {
    if paths == [] then []
    else
      var last := paths[|paths| - 1];
      MatchingPaths(paths[..|paths| - 1], rule)
        + (if last.Some? && Accepts(rule, last.value) then [last.value] else [])
  }

  /**
   * Exactly the accepted paths of fetched interfaces are matches: every match
   * is one, and every one is a match.
   */
  lemma {:induction false} MatchingPathsAreAcceptedPaths(paths: seq<Option<string>>, rule: Rule)
    ensures forall p :: p in MatchingPaths(paths, rule) ==> Accepts(rule, p) && Some(p) in paths
    ensures forall i :: 0 <= i < |paths| && paths[i].Some? && Accepts(rule, paths[i].value) ==>
      paths[i].value in MatchingPaths(paths, rule)
  {
    if paths != [] {
      var init := paths[..|paths| - 1];
      MatchingPathsAreAcceptedPaths(init, rule);
      forall i | 0 <= i < |paths| - 1
        ensures paths[i] == init[i]
      {
      }
    }
  }

  function Entries(paths: seq<Option<string>>, rule: Rule): (es: seq<DeviceInfo>)
    ensures |es| == |MatchingPaths(paths, rule)|
  {
    var m := MatchingPaths(paths, rule);
    seq(|m|, k requires 0 <= k < |m| => Entry(m[k], rule))
  }

  /** The caller's array after the first entries are written, up to maxDevices of them. */
  function Filled(before: seq<DeviceInfo>, maxDevices: int, entries: seq<DeviceInfo>): (after: seq<DeviceInfo>)
    ensures |after| == |before|
    ensures forall k :: 0 <= k < |before| ==>
      after[k] == (if k < maxDevices && k < |entries| then entries[k] else before[k])
  {
    seq(|before|, k requires 0 <= k < |before| => if k < maxDevices && k < |entries| then entries[k] else before[k])
  }

  /** The matches of one more interface: those before it, then its own. */
  lemma EntriesOfLonger(paths: seq<Option<string>>, i: nat, rule: Rule)
    requires i < |paths|
    ensures Entries(paths[..i + 1], rule) == Entries(paths[..i], rule)
      + (if paths[i].Some? && Accepts(rule, paths[i].value) then [Entry(paths[i].value, rule)] else [])
  {
    assert paths[..i + 1][..i] == paths[..i];
  }

  /** Writing entry number |entries| extends the filled prefix by one. */
  lemma FilledOneMore(before: seq<DeviceInfo>, maxDevices: int, entries: seq<DeviceInfo>, e: DeviceInfo)
    ensures Filled(before, maxDevices, entries + [e]) ==
      if |entries| < maxDevices && |entries| < |before| then Filled(before, maxDevices, entries)[|entries| := e]
      else Filled(before, maxDevices, entries)
  {
  }

  /** One SetupAPI pass: count every match, fill at most maxDevices entries. */
  method ScanInterfaceSet(devices: array?<DeviceInfo>, maxDevices: int, paths: seq<Option<string>>, rule: Rule)
    returns (found: nat)
    requires devices != null ==> maxDevices <= devices.Length
    modifies devices
    ensures found == |MatchingPaths(paths, rule)|
    ensures devices != null ==> devices[..] == Filled(old(devices[..]), maxDevices, Entries(paths, rule))
  {
    found := 0;
    var i := 0;
    while i < |paths|
      invariant 0 <= i <= |paths|
      invariant found == |Entries(paths[..i], rule)|
      invariant devices != null ==> devices[..] == Filled(old(devices[..]), maxDevices, Entries(paths[..i], rule))
    {
      EntriesOfLonger(paths, i, rule);
      ghost var entries := Entries(paths[..i], rule);
      match paths[i] {
        case None =>
        case Some(path) =>
          if Accepts(rule, path) {
            if devices != null && found < maxDevices {
              FilledOneMore(old(devices[..]), maxDevices, entries, Entry(path, rule));
              devices[found] := Entry(path, rule);
            } else if devices != null {
              FilledOneMore(old(devices[..]), maxDevices, entries, Entry(path, rule));
            }
            found := found + 1;
          }
      }
      i := i + 1;
    }
    assert paths[..i] == paths;
  }

  /**
   * camera_enumerate: the WinUSB interface set first; only if it yields no
   * match, the USB device set, whose absence is NOT_FOUND. The count and the
   * entries of the pass that decided the result.
   */
  function Enumeration(winusb: Option<seq<Option<string>>>, usbDevices: Option<seq<Option<string>>>)
    : (res: (int, seq<DeviceInfo>))
  {
    var first := if winusb.Some? then Entries(winusb.value, WinUsbInterface) else [];
    if |first| > 0 then (|first|, first)
    else if usbDevices.None? then (Code(NotFound), [])
    else (|Entries(usbDevices.value, UsbDevice)|, Entries(usbDevices.value, UsbDevice))
  }

  method Enumerate(devices: array?<DeviceInfo>, maxDevices: int,
                   winusb: Option<seq<Option<string>>>, usbDevices: Option<seq<Option<string>>>)
    returns (result: int)
    requires devices != null ==> maxDevices <= devices.Length
    modifies devices
    ensures result == Enumeration(winusb, usbDevices).0
    ensures devices != null ==> devices[..] == Filled(old(devices[..]), maxDevices, Enumeration(winusb, usbDevices).1)
  {
    var found := 0;
    if winusb.Some? {
      found := ScanInterfaceSet(devices, maxDevices, winusb.value, WinUsbInterface);
    }
    if found > 0 {
      return found;
    }
    assert devices != null ==> devices[..] == old(devices[..]);
    if usbDevices.None? {
      return Code(NotFound);
    }
    found := ScanInterfaceSet(devices, maxDevices, usbDevices.value, UsbDevice);
    return found;
  }

  /**
   * The result counts every matching interface of the deciding pass, even
   * beyond maxDevices; it is NOT_FOUND only when the WinUSB pass found
   * nothing and the USB device set could not be opened; the fallback runs
   * only when the WinUSB pass found nothing, and then its count and entries
   * are those of the USB device set; every entry is for the camera.
   */
  lemma EnumerationCountsEveryMatch(winusb: Option<seq<Option<string>>>, usbDevices: Option<seq<Option<string>>>)
    ensures var (n, es) := Enumeration(winusb, usbDevices);
      && (n < 0 <==> n == Code(NotFound))
      && (n == Code(NotFound) <==>
            usbDevices.None? && (winusb.None? || MatchingPaths(winusb.value, WinUsbInterface) == []))
      && (n >= 0 ==> n == |es|)
      && (winusb.Some? && MatchingPaths(winusb.value, WinUsbInterface) != [] ==>
            n == |MatchingPaths(winusb.value, WinUsbInterface)| && es == Entries(winusb.value, WinUsbInterface))
      && ((winusb.None? || MatchingPaths(winusb.value, WinUsbInterface) == []) && usbDevices.Some? ==>
            n == |MatchingPaths(usbDevices.value, UsbDevice)| && es == Entries(usbDevices.value, UsbDevice))
      && (forall k :: 0 <= k < |es| ==> es[k].vendorId == VENDOR_ID && es[k].productId == PRODUCT_ID)
  {
  }
}
