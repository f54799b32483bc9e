/** Translation of the storage framework's open flags into the open modes of
    the XRootD client. Both flag words are modelled as the set of bits that
    are set; bits the translation never looks at are `OtherFlag`s. */
module OpenFlags {

  /** Bits of the framework's open-flag word (IOFlags) that the handle inspects. */
  datatype IoFlag =
    | OpenRead
    | OpenWrite
    | OpenAppend
    | OpenCreate
    | OpenExclusive
    | OpenTruncate
    | OtherFlag(bit: nat)

  /** Bits of the XRootD client's open-mode word (XrdCl::OpenFlags) that the handle sets. */
  datatype OpenMode = Update | Read | New | MakePath | Delete

  /** The caller asked for read access, write access or both. */
  predicate RequestsAccess(flags: set<IoFlag>)
  {
    OpenRead in flags || OpenWrite in flags
  }

  /** The open modes requested for the given flags: write access opens for
      update, otherwise read access opens for reading; creation asks for a new
      file and its missing parent directories, replacing an existing file
      unless the creation is exclusive; truncation of a writable file also
      replaces an existing file. */
  function TranslateFlags(flags: set<IoFlag>): (modes: set<OpenMode>)
    ensures Update in modes <==> OpenWrite in flags
    ensures Read in modes <==> OpenRead in flags && OpenWrite !in flags
    ensures New in modes <==> OpenCreate in flags
    ensures MakePath in modes <==> OpenCreate in flags
    ensures Delete in modes <==>
      (OpenCreate in flags && OpenExclusive !in flags) || (OpenTruncate in flags && OpenWrite in flags)
  {
    var access := if OpenWrite in flags then {Update} else if OpenRead in flags then {Read} else {};
    var creation :=
      if OpenCreate in flags then (if OpenExclusive in flags then {} else {Delete}) + {New, MakePath}
      else {};
    var truncation := if OpenTruncate in flags && OpenWrite in flags then {Delete} else {};
    access + creation + truncation
  }

  /** The per-mode conditions above determine the translation completely. */
  lemma TranslateFlagsUnique(flags: set<IoFlag>, modes: set<OpenMode>)
    requires Update in modes <==> OpenWrite in flags
    requires Read in modes <==> OpenRead in flags && OpenWrite !in flags
    requires New in modes <==> OpenCreate in flags
    requires MakePath in modes <==> OpenCreate in flags
    requires Delete in modes <==>
      (OpenCreate in flags && OpenExclusive !in flags) || (OpenTruncate in flags && OpenWrite in flags)
    ensures modes == TranslateFlags(flags)
  {
    var t := TranslateFlags(flags);
    forall m: OpenMode
      ensures m in modes <==> m in t
    {
      match m
      case Update =>
      case Read =>
      case New =>
      case MakePath =>
      case Delete =>
    }
  }

  /** Exactly one access mode is requested when the caller asks for access,
      and none otherwise; bits outside the inspected ones never matter. */
  lemma AccessModeExactlyOne(flags: set<IoFlag>, other: nat)
    ensures var modes := TranslateFlags(flags);
      && !(Update in modes && Read in modes)
      && ((Update in modes || Read in modes) <==> RequestsAccess(flags))
    ensures TranslateFlags(flags + {OtherFlag(other)}) == TranslateFlags(flags)
  {
    TranslateFlagsUnique(flags + {OtherFlag(other)}, TranslateFlags(flags));
  }

  /** The flags `create` passes to `open`: create, write and truncate, plus
      exclusive when asked for. */
  function CreateFlags(exclusive: bool): (flags: set<IoFlag>)
    ensures OpenCreate in flags && OpenWrite in flags && OpenTruncate in flags
    ensures OpenExclusive in flags <==> exclusive
    ensures OpenRead !in flags && OpenAppend !in flags
  {
    {OpenCreate, OpenWrite, OpenTruncate} + (if exclusive then {OpenExclusive} else {})
  }

  /** As written, the truncation rule undoes exclusivity: an exclusive create
      requests exactly the same modes as a non-exclusive one, including Delete,
      so an existing file is replaced instead of the open failing. */
  lemma ExclusiveCreateStillDeletes()
    ensures TranslateFlags(CreateFlags(true)) == TranslateFlags(CreateFlags(false))
    ensures TranslateFlags(CreateFlags(true)) == {Update, New, MakePath, Delete}
  {
    TranslateFlagsUnique(CreateFlags(true), {Update, New, MakePath, Delete});
    TranslateFlagsUnique(CreateFlags(false), {Update, New, MakePath, Delete});
  }

  /** The translation with exclusivity respected: truncation of a writable
      file replaces an existing file only when the open is not an exclusive
      creation. Otherwise identical to `TranslateFlags`. */
  function TranslateFlagsRespectingExclusive(flags: set<IoFlag>): (modes: set<OpenMode>)
    ensures OpenCreate in flags && OpenExclusive in flags ==> Delete !in modes
    ensures !(OpenCreate in flags && OpenExclusive in flags) ==> modes == TranslateFlags(flags)
    ensures modes - {Delete} == TranslateFlags(flags) - {Delete}
  {
    var modes := TranslateFlags(flags);
    if OpenCreate in flags && OpenExclusive in flags then modes - {Delete} else modes
  }

  /** With exclusivity respected, `create` replaces an existing file exactly
      when it is not exclusive, and otherwise requests the same modes. */
  lemma CreateRespectingExclusive(exclusive: bool)
    ensures var modes := TranslateFlagsRespectingExclusive(CreateFlags(exclusive));
      && (Delete in modes <==> !exclusive)
      && modes - {Delete} == {Update, New, MakePath}
  {
    ExclusiveCreateStillDeletes();
    assert {Update, New, MakePath, Delete} - {Delete} == {Update, New, MakePath};
  }
}
