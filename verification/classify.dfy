/**
 Choosing the display style of one entry from its `lstat` mode and its name:
 the if/else chain of `print_name_colored`.
 */
module Classify {
  import opened Names

  /** The file type bits of `st_mode`, one constructor per `S_IS*` test. */
  datatype FileKind = Reg | Dir | Lnk | Chr | Blk | Sock | Fifo | UnknownKind

  /** The part of `st_mode` the lister reads: the file type and the three execute bits. */
  datatype Mode = Mode(kind: FileKind, userExec: bool, groupExec: bool, otherExec: bool)

  /**
   The escape sequence chosen for a name: `Unstyled` prints the bare name; the
   others stand for pink, blue, red, green and reverse video.
   */
  datatype Style = Unstyled | SymbolicLink | Directory | Archive | Executable | SpecialFile

  /** `S_IXUSR | S_IXGRP | S_IXOTH` has some bit set. */
  predicate AnyExec(m: Mode) {
    m.userExec || m.groupExec || m.otherExec
  }

  /** Character device, block device, socket or named pipe. */
  predicate IsSpecial(k: FileKind) {
    k == Chr || k == Blk || k == Sock || k == Fifo
  }

  /**
   The style chain: with colour off nothing is styled; otherwise the first of
   link, directory, archive name, executable regular file, special file wins.
   */
  function ChooseStyle(name: string, m: Mode, colorEnabled: bool): (s: Style)
    ensures !colorEnabled ==> s == Unstyled
    ensures s == SymbolicLink <==> colorEnabled && m.kind == Lnk
    ensures s == Directory <==> colorEnabled && m.kind == Dir
    ensures s == Archive <==> colorEnabled && m.kind != Lnk && m.kind != Dir && IsArchiveName(name)
    ensures s == Executable <==>
      colorEnabled && m.kind == Reg && AnyExec(m) && !IsArchiveName(name)
    ensures s == SpecialFile <==> colorEnabled && IsSpecial(m.kind) && !IsArchiveName(name)
    ensures s == Unstyled <==>
      !colorEnabled ||
      (!IsArchiveName(name) && (m.kind == UnknownKind || (m.kind == Reg && !AnyExec(m))))
  {
    if !colorEnabled then Unstyled
    else if m.kind == Lnk then SymbolicLink
    else if m.kind == Dir then Directory
    else if IsArchiveName(name) then Archive
    else if m.kind == Reg && AnyExec(m) then Executable
    else if IsSpecial(m.kind) then SpecialFile
    else Unstyled
  }

  /** The tests of the chain, as an explicit precedence list. */
  datatype Test = IsLink | IsDir | HasArchiveName | IsExecutable | IsSpecialFile

  predicate Holds(t: Test, name: string, m: Mode) {
    match t
    case IsLink => m.kind == Lnk
    case IsDir => m.kind == Dir
    case HasArchiveName => IsArchiveName(name)
    case IsExecutable => m.kind == Reg && AnyExec(m)
    case IsSpecialFile => IsSpecial(m.kind)
  }

  /** link > directory > archive-by-name > executable > special. */
  const Precedence: seq<(Test, Style)> := [
    (IsLink, SymbolicLink),
    (IsDir, Directory),
    (HasArchiveName, Archive),
    (IsExecutable, Executable),
    (IsSpecialFile, SpecialFile)
  ]

  /** The style of the first rule whose test holds, `Unstyled` if none does. */
  function FirstMatch(rules: seq<(Test, Style)>, name: string, m: Mode): Style {
    if |rules| == 0 then Unstyled
    else if Holds(rules[0].0, name, m) then rules[0].1
    else FirstMatch(rules[1..], name, m)
  }

  /** `FirstMatch` returns the style of the earliest rule that holds. */
  lemma {:induction false} FirstMatchIsEarliest(rules: seq<(Test, Style)>, name: string, m: Mode, k: nat)
    requires k < |rules| && Holds(rules[k].0, name, m)
    requires forall j :: 0 <= j < k ==> !Holds(rules[j].0, name, m)
    ensures FirstMatch(rules, name, m) == rules[k].1
  {
    if k > 0 {
      assert !Holds(rules[0].0, name, m);
      FirstMatchIsEarliest(rules[1..], name, m, k - 1);
    }
  }

  /** When no rule holds, `FirstMatch` leaves the name unstyled. */
  lemma {:induction false} FirstMatchNone(rules: seq<(Test, Style)>, name: string, m: Mode)
    requires forall j :: 0 <= j < |rules| ==> !Holds(rules[j].0, name, m)
    ensures FirstMatch(rules, name, m) == Unstyled
  {
    if |rules| > 0 {
      assert !Holds(rules[0].0, name, m);
      FirstMatchNone(rules[1..], name, m);
    }
  }

  /** With colour on, the chain is exactly the precedence list read first to last. */
  lemma ChooseStyleFollowsPrecedence(name: string, m: Mode)
    ensures ChooseStyle(name, m, true) == FirstMatch(Precedence, name, m)
  {
    var r := Precedence;
    if m.kind == Lnk {
      FirstMatchIsEarliest(r, name, m, 0);
    } else if m.kind == Dir {
      FirstMatchIsEarliest(r, name, m, 1);
    } else if IsArchiveName(name) {
      FirstMatchIsEarliest(r, name, m, 2);
    } else if m.kind == Reg && AnyExec(m) {
      FirstMatchIsEarliest(r, name, m, 3);
    } else if IsSpecial(m.kind) {
      FirstMatchIsEarliest(r, name, m, 4);
    } else {
      FirstMatchNone(r, name, m);
    }
  }

  /** An executable archive is styled as an archive. */
  lemma ExecutableArchiveIsArchive(name: string, m: Mode)
    requires m.kind == Reg && AnyExec(m) && IsArchiveName(name)
    ensures ChooseStyle(name, m, true) == Archive
  {
  }

  /** A symbolic link named like an archive is styled as a link. */
  lemma ArchiveNamedLinkIsLink(m: Mode)
    requires m.kind == Lnk
    ensures ChooseStyle("x.zip", m, true) == SymbolicLink
  {
  }
}
