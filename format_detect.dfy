/** File-type detection from an open stream: a first-match search over the
    ordered plugin registry, followed by the TIFF-to-RAW re-validation
    (Source/FreeImage/GetType.cpp). */
module FormatDetect {
  import opened Wrappers
  import opened Bytes

  /** Format identifiers. Detection singles out only TIFF and RAW; every other
      format is identified by its number. */
  datatype Fif = Unknown | Tiff | Raw | Other(id: nat)

  /** A plugin node: whether it is enabled and its signature check. Every
      check sees the stream from the same starting position. */
  datatype Node = Node(enabled: bool, validate: seq<byte> -> bool)

  /** One registry entry: a format id and its node, which may be absent. */
  datatype Slot = Slot(fif: Fif, node: Option<Node>)

  /** The entry is present, enabled and accepts the stream. */
  predicate Accepts(slot: Slot, s: seq<byte>)
  {
    slot.node.Some? && slot.node.value.enabled && slot.node.value.validate(s)
  }

  /** The index of the first registry entry that accepts the stream. */
  function FirstMatch(registry: seq<Slot>, s: seq<byte>): (r: Option<nat>)
    ensures r.Some? ==> r.value < |registry| && Accepts(registry[r.value], s)
    ensures r.Some? ==> forall j :: 0 <= j < r.value ==> !Accepts(registry[j], s)
    ensures r.None? ==> forall j :: 0 <= j < |registry| ==> !Accepts(registry[j], s)
    decreases |registry|
  {
    if |registry| == 0 then None
    else if Accepts(registry[0], s) then Some(0)
    else match FirstMatch(registry[1..], s)
      case None => None
      case Some(k) => Some(k + 1)
  }

  /** FreeImage_GetFileTypeFromHandle. hasHandle is false for a null handle;
      validateRaw is the RAW plugin's own check, which is not part of this
      model; size is accepted and ignored, as in the source. */
  function DetectFromHandle(hasHandle: bool, registry: seq<Slot>, s: seq<byte>,
                            size: int, validateRaw: seq<byte> -> bool): (r: Fif)
    ensures !hasHandle ==> r == Unknown
    ensures hasHandle && (forall j :: 0 <= j < |registry| ==> !Accepts(registry[j], s)) ==> r == Unknown
    ensures r != Unknown && r != Raw ==>
      exists i :: 0 <= i < |registry| && registry[i].fif == r && Accepts(registry[i], s)
  {
    var deduced :=
      if hasHandle then
        match FirstMatch(registry, s)
        case Some(k) => registry[k].fif
        case None => Unknown
      else Unknown;
    if deduced == Tiff && validateRaw(s) then Raw else deduced
  }

  /** The result is the format of the first accepting entry, unless that
      format is TIFF, in which case it is RAW exactly when RAW validates. */
  lemma DetectIsFirstAccepted(registry: seq<Slot>, s: seq<byte>, size: int,
                              validateRaw: seq<byte> -> bool, i: nat)
    requires i < |registry| && Accepts(registry[i], s)
    requires forall j :: 0 <= j < i ==> !Accepts(registry[j], s)
    ensures registry[i].fif != Tiff ==>
      DetectFromHandle(true, registry, s, size, validateRaw) == registry[i].fif
    ensures registry[i].fif == Tiff ==>
      (DetectFromHandle(true, registry, s, size, validateRaw) == Raw <==> validateRaw(s))
    ensures registry[i].fif == Tiff && !validateRaw(s) ==>
      DetectFromHandle(true, registry, s, size, validateRaw) == Tiff
  {
  }

  /** A format whose every registry entry is disabled or absent is never the
      result, even when its check would accept the stream (RAW excepted, as it
      can arrive through the TIFF override). */
  lemma DisabledNeverDetected(hasHandle: bool, registry: seq<Slot>, s: seq<byte>, size: int,
                              validateRaw: seq<byte> -> bool, f: Fif)
    requires f != Unknown && f != Raw
    requires forall i :: 0 <= i < |registry| && registry[i].fif == f ==>
      registry[i].node.None? || !registry[i].node.value.enabled
    ensures DetectFromHandle(hasHandle, registry, s, size, validateRaw) != f
  {
  }

  /** The size argument never changes the outcome. */
  lemma DetectIgnoresSize(hasHandle: bool, registry: seq<Slot>, s: seq<byte>,
                          size1: int, size2: int, validateRaw: seq<byte> -> bool)
    ensures DetectFromHandle(hasHandle, registry, s, size1, validateRaw)
         == DetectFromHandle(hasHandle, registry, s, size2, validateRaw)
  {
  }
}
