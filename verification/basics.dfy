/**
 * processRecordFileBasics (src/scrounge.c): the name, times, flags and
 * parent of a record, taken from the best of its FILENAME attributes.
 */
module Basics {
  import opened Usuals
  import opened Layout
  import opened Drive
  import opened Ntfs
  import opened Records
  import Unicode

  /** MAX_PATH: the longest name kept, in bytes, and the cap on units transcoded. */
  const MaxPath: nat := 256

  /** strlen: the text up to the first NUL. */
  function CutAtNul(s: seq<byte>): (r: seq<byte>)
    ensures r <= s
    ensures forall k :: 0 <= k < |r| ==> r[k] != 0
    ensures |r| < |s| ==> s[|r|] == 0
  {
    if |s| == 0 || s[0] == 0 then [] else [s[0]] + CutAtNul(s[1..])
  }

  /**
   * The stored name: at most MAX_PATH units are transcoded to UTF-8, the
   * text is cut at its first NUL and then at MAX_PATH bytes.
   */
  function NameFromUnits(units: seq<uint16>): (name: seq<byte>)
    ensures |name| <= MaxPath
    ensures forall k :: 0 <= k < |name| ==> name[k] != 0
    ensures |units| <= MaxPath ==> name <= Unicode.Encode(units)
  {
    var len := if |units| > MaxPath then MaxPath else |units|;
    var text := CutAtNul(Unicode.Encode(units[..len]));
    assert units[..|units|] == units;
    if |text| > MaxPath then text[..MaxPath] else text
  }

  /** A unit other than 0 encodes without a NUL byte. */
  lemma {:induction false} EncodeHasNoNul(units: seq<uint16>)
    requires forall k :: 0 <= k < |units| ==> units[k] != 0
    ensures forall k :: 0 <= k < |Unicode.Encode(units)| ==> Unicode.Encode(units)[k] != 0
  {
    if |units| > 0 {
      EncodeHasNoNul(units[1..]);
      var e, rest := Unicode.EncodeUnit(units[0]), Unicode.Encode(units[1..]);
      assert Unicode.Encode(units) == e + rest;
      forall k | 0 <= k < |e + rest|
        ensures (e + rest)[k] != 0
      {
        if k >= |e| {
          assert (e + rest)[k] == rest[k - |e|];
        }
      }
    }
  }

  lemma {:induction false} CutAtNulKeepsText(s: seq<byte>)
    requires forall k :: 0 <= k < |s| ==> s[k] != 0
    ensures CutAtNul(s) == s
  {
    if |s| > 0 {
      CutAtNulKeepsText(s[1..]);
    }
  }

  /**
   * A name without NUL units whose UTF-8 form fits is stored whole, and
   * decoding the stored bytes gives the units back.
   */
  lemma NameOfPlainUnits(units: seq<uint16>)
    requires forall k :: 0 <= k < |units| ==> units[k] != 0
    requires |Unicode.Encode(units)| <= MaxPath
    ensures NameFromUnits(units) == Unicode.Encode(units)
    ensures Unicode.Decode(NameFromUnits(units)) == seq(|units|, k requires 0 <= k < |units| => units[k] as nat)
  {
    assert units[..|units|] == units;
    EncodeHasNoNul(units);
    CutAtNulKeepsText(Unicode.Encode(units));
    Unicode.DecodeEncode(units);
  }

  /** The fields processRecordFileBasics fills in. */
  datatype Info = Info(name: seq<byte>, created: uint64, modified: uint64, accessed: uint64, flags: uint32, parent: uint64)

  /** What a record without any FILENAME attribute gets: no name, no parent. */
  const NoInfo := Info([], 0, 0, 0, 0, InvalidSector)

  /** Where a resident attribute's payload starts. */
  function Payload(a: Attr): nat
  {
    a.at + ResDataOffset(a.buf, a.at)
  }

  /** The fields of the file-name payload at `p`; the parent is the reference's record index. */
  function InfoAt(buf: seq<byte>, p: nat): (i: Info)
    ensures i.parent < 0x1_0000_0000_0000 && i.parent != InvalidSector
    ensures |i.name| <= MaxPath
    ensures i.created == FnCreated(buf, p) && i.modified == FnModified(buf, p) && i.accessed == FnRead(buf, p)
  {
    Info(NameFromUnits(FnUnits(buf, p)), FnCreated(buf, p), FnModified(buf, p), FnRead(buf, p),
         FnFlags(buf, p), RefIndex(FnParent(buf, p)))
  }

  /**
   * The FILENAME attributes the do-while loop visits: the one found, then
   * each next one in the same buffer. A next attribute at the same offset
   * (a zero-length header of the same type) makes the C loop spin forever.
   */
  function NameChain(a: Attr): (r: Outcome<seq<Attr>>)
    requires Located(a, FileName)
    decreases |a.buf| - a.at
    ensures r.Done? ==> |r.value| >= 1 && r.value[0] == a
    ensures r.Done? ==> forall k :: 0 <= k < |r.value| ==> Located(r.value[k], FileName) && r.value[k].buf == a.buf
    ensures r.Done? ==> forall k :: 0 < k < |r.value| ==> r.value[k - 1].at < r.value[k].at
  {
    match AttributeNext(a, FileName)
    case Stop(h) => Stop(h)
    case Done(None) => Done([a])
    case Done(Some(b)) =>
      if b.at == a.at then Stop(Diverges)
      else
        match NameChain(b)
        case Stop(h) => Stop(h)
        case Done(rest) => Done([a] + rest)
  }

  function Namespaces(attrs: seq<Attr>): (nss: seq<byte>)
    ensures |nss| == |attrs|
  {
    if |attrs| == 0 then [] else [FnNameSpace(attrs[0].buf, Payload(attrs[0]))] + Namespaces(attrs[1..])
  }

  /**
   * The loop's choice among the namespaces `nss`: from `i` on, an attribute
   * replaces the kept one (`best`, in namespace `ns`) when its namespace is
   * better.
   */
  function Choose(nss: seq<byte>, i: nat, best: int, ns: byte): (r: int)
    requires i <= |nss| && -1 <= best < |nss|
    decreases |nss| - i
    ensures -1 <= r < |nss|
    ensures r == best || i <= r
    ensures i < |nss| && ns == NameSpacePosix ==> i <= r
  {
    if i == |nss| then best
    else if IsBetterNamespace(ns, nss[i]) then Choose(nss, i + 1, i, nss[i])
    else Choose(nss, i + 1, best, ns)
  }

  /** The first index holding `c`. */
  function FirstWith(s: seq<byte>, c: byte): (r: Option<nat>)
    ensures r.Some? ==> r.value < |s| && s[r.value] == c
    ensures r.Some? ==> forall k :: 0 <= k < r.value ==> s[k] != c
    ensures r.None? ==> forall k :: 0 <= k < |s| ==> s[k] != c
  {
    if |s| == 0 then None
    else match FirstWith(s[..|s| - 1], c)
      case Some(k) => Some(k)
      case None => if s[|s| - 1] == c then Some(|s| - 1) else None
  }

  predicate KnownCodes(nss: seq<byte>)
  {
    forall k :: 0 <= k < |nss| ==> nss[k] <= NameSpaceWinDos
  }

  /**
   * The attribute that should win: the first WIN32 name, else the first
   * WIN32+DOS, else the first DOS, else the last one (all POSIX then).
   */
  function Preferred(nss: seq<byte>): (k: nat)
    requires |nss| > 0
    ensures k < |nss|
  {
    if FirstWith(nss, NameSpaceWin32).Some? then FirstWith(nss, NameSpaceWin32).value
    else if FirstWith(nss, NameSpaceWinDos).Some? then FirstWith(nss, NameSpaceWinDos).value
    else if FirstWith(nss, NameSpaceDos).Some? then FirstWith(nss, NameSpaceDos).value
    else |nss| - 1
  }

  lemma FirstWithAppend(s: seq<byte>, c: byte, x: byte)
    ensures FirstWith(s + [c], x) ==
      if FirstWith(s, x).Some? then FirstWith(s, x) else if c == x then Some(|s|) else None
  {
    assert (s + [c])[..|s|] == s;
  }

  /** One more attribute: it becomes the preferred one exactly when the loop would take it. */
  lemma PreferredStep(s: seq<byte>, c: byte)
    requires |s| > 0 && KnownCodes(s) && c <= NameSpaceWinDos
    ensures Preferred(s + [c]) == if IsBetterNamespace(s[Preferred(s)], c) then |s| else Preferred(s)
  {
    FirstWithAppend(s, c, NameSpaceWin32);
    FirstWithAppend(s, c, NameSpaceWinDos);
    FirstWithAppend(s, c, NameSpaceDos);
    var p := Preferred(s);
    if FirstWith(s, NameSpaceWin32).None? && FirstWith(s, NameSpaceWinDos).None? && FirstWith(s, NameSpaceDos).None? {
      assert s[p] == NameSpacePosix;
    }
  }

  lemma {:induction false} ChooseFrom(nss: seq<byte>, i: nat)
    requires 1 <= i <= |nss| && KnownCodes(nss)
    decreases |nss| - i
    ensures Choose(nss, i, Preferred(nss[..i]), nss[Preferred(nss[..i])]) == Preferred(nss)
  {
    if i == |nss| {
      assert nss[..i] == nss;
    } else {
      var s := nss[..i];
      assert nss[..i + 1] == s + [nss[i]];
      PreferredStep(s, nss[i]);
      ChooseFrom(nss, i + 1);
    }
  }

  /** For the four defined namespace codes the loop keeps the preferred attribute. */
  lemma ChooseIsPreferred(nss: seq<byte>)
    requires |nss| > 0 && KnownCodes(nss)
    ensures Choose(nss, 0, -1, NameSpacePosix) == Preferred(nss)
  {
    assert nss[..1] == [nss[0]];
    ChooseFrom(nss, 1);
  }

  /**
   * processRecordFileBasics: without a FILENAME attribute the name is empty
   * and the parent invalid; otherwise the fields come from the attribute the
   * namespace loop keeps.
   */
  function FileBasics(vol: Volume, rec: seq<byte>, fuel: nat): (r: Outcome<Info>)
    ensures FindInRecord(vol, rec, FileName, fuel) == Done(None) <==> r == Done(NoInfo)
    ensures FindInRecord(vol, rec, FileName, fuel).Stop? ==> r.Stop?
    ensures r.Done? && r.value.parent == InvalidSector ==> r.value == NoInfo
  {
    match FindInRecord(vol, rec, FileName, fuel)
    case Stop(h) => Stop(h)
    case Done(None) => Done(NoInfo)
    case Done(Some(a)) =>
      match NameChain(a)
      case Stop(h) => Stop(h)
      case Done(attrs) =>
        var best := Choose(Namespaces(attrs), 0, -1, NameSpacePosix);
        Done(InfoAt(attrs[best].buf, Payload(attrs[best])))
  }

  /** With known namespace codes the fields come from the preferred FILENAME attribute. */
  lemma FileBasicsPrefers(vol: Volume, rec: seq<byte>, fuel: nat, a: Attr, attrs: seq<Attr>)
    requires FindInRecord(vol, rec, FileName, fuel) == Done(Some(a))
    requires NameChain(a) == Done(attrs) && KnownCodes(Namespaces(attrs))
    ensures var k := Preferred(Namespaces(attrs));
            FileBasics(vol, rec, fuel) == Done(InfoAt(attrs[k].buf, Payload(attrs[k])))
  {
    ChooseIsPreferred(Namespaces(attrs));
  }

  /** A FILENAME attribute in the record itself is found without following any list, so the fuel does not matter. */
  lemma FileBasicsFuelFree(vol: Volume, rec: seq<byte>, f1: nat, f2: nat)
    requires FindAttribute(rec, FileName).Found?
    ensures FileBasics(vol, rec, f1) == FileBasics(vol, rec, f2)
    ensures FileBasics(vol, rec, f1).Done? ==> FileBasics(vol, rec, f1).value.parent != InvalidSector
  {
  }
}
