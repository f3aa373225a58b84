/** `debuginfo_eip` of kern/kdebug.c: three nested searches find the file, the function and
    the line of an instruction address. */
module DebugInfo {
  import opened Mmu
  import opened Stabs

  const N_FUN: nat := 0x24
  const N_SLINE: nat := 0x44
  const N_SO: nat := 0x64
  const N_SOL: nat := 0x84
  const N_PSYM: nat := 0xa0

  /** A string that the answer points to. */
  datatype Text = Unknown | StringAt(strx: Word)

  datatype Info = Info(file: Text, line: nat, fnName: Text, fnNamelen: nat, fnAddr: Word, narg: nat)

  /** The indices that the three searches leave. `addr` is the address that the line was
      searched with: relative to the function if there is one. */
  datatype Levels = Levels(lfile: int, rfile: int, lfun: int, rfun: int, addr: Word, lline: int, rline: int)

  // ----- the preconditions of the nested searches

  /** The records of a kind in [left, right] can be searched for the address. */
  ghost predicate Searchable(stabs: seq<Stab>, left: int, right: int, kind: nat, addr: Word)
    requires 0 <= left && right < |stabs|
  {
    SortedIn(stabs, left, right, kind) && LandsRight(stabs, left, right, kind, addr)
  }

  /** The first record is a source file above the address. Then the first search answers -1,
      which the code takes for an index; see `NegativeFile`. */
  predicate FirstAbove(stabs: seq<Stab>, n: nat, addr: Word)
    requires n <= |stabs|
  {
    n > 0 && stabs[0].kind == N_SO && stabs[0].value > addr
  }

  /** The table ends with a record that is not a parameter, the source files are in order and
      the first search answers an index. `n` records are searched. */
  ghost predicate FilesOrdered(stabs: seq<Stab>, n: nat, addr: Word) {
    && |stabs| == n + 1 && stabs[n].kind != N_PSYM
    && Searchable(stabs, 0, n - 1, N_SO, addr) && !FirstAbove(stabs, n, addr)
  }

  /** The first search answers a negative index exactly when the first record is a source file
      above the address: `lfile == 0` at line 143 does not catch that. */
  lemma NegativeFile(stabs: seq<Stab>, n: nat, addr: Word)
    requires n <= |stabs| && Searchable(stabs, 0, n - 1, N_SO, addr)
    ensures var lfile := BinSearch(stabs, 0, n - 1, N_SO, addr).0;
            (lfile < 0 <==> FirstAbove(stabs, n, addr)) && lfile >= -1
  {
    SearchBrackets(stabs, 0, n - 1, N_SO, addr);
    if FirstAbove(stabs, n, addr) {
      assert !NoneIn(stabs, 0, n, N_SO);
    }
  }

  /** The code gives up although there is a file at or below the address exactly when that file
      is the first record. */
  lemma FirstFileIsMissed(stabs: seq<Stab>, n: nat, addr: Word)
    requires n <= |stabs| && Searchable(stabs, 0, n - 1, N_SO, addr)
    ensures BinSearch(stabs, 0, n - 1, N_SO, addr).0 == 0 && (exists i :: 0 <= i < n && stabs[i].kind == N_SO && stabs[i].value <= addr)
       <==> Last(stabs, 0, n - 1, N_SO, addr, 0)
  {
    SearchBrackets(stabs, 0, n - 1, N_SO, addr);
  }

  /** The functions of the file that is found are in order. */
  ghost predicate FunctionsOrdered(stabs: seq<Stab>, n: nat, addr: Word)
    requires FilesOrdered(stabs, n, addr)
  {
    FileFound(stabs, n, addr);
    var (lfile, rfile) := BinSearch(stabs, 0, n - 1, N_SO, addr);
    lfile != 0 ==> Searchable(stabs, lfile, rfile, N_FUN, addr)
  }

  /** The first search finds the last file at or below the address, or answers 0 if none but
      perhaps the first record is one. */
  lemma FileFound(stabs: seq<Stab>, n: nat, addr: Word)
    requires FilesOrdered(stabs, n, addr)
    ensures var (lfile, rfile) := BinSearch(stabs, 0, n - 1, N_SO, addr);
            && (lfile != 0 ==>
                  && 0 < lfile <= rfile < n && Last(stabs, 0, n - 1, N_SO, addr, lfile)
                  && JustBeforeNext(stabs, lfile + 1, n - 1, N_SO, rfile))
            && (lfile == 0 <==> forall i :: 0 < i < n && stabs[i].kind == N_SO ==> stabs[i].value > addr)
  {
    SearchBrackets(stabs, 0, n - 1, N_SO, addr);
  }

  /** What one level finds inside the level above, whose first record is of another kind. */
  lemma LevelFound(stabs: seq<Stab>, left: int, right: int, kind: nat, addr: Word)
    requires 0 <= left <= right < |stabs| && Searchable(stabs, left, right, kind, addr)
    requires stabs[left].kind != kind
    ensures var (l, r) := BinSearch(stabs, left, right, kind, addr);
            && left <= l && r <= right && (l <= r || (l, r) == (left, left - 1))
            && (l > r <==> NoneIn(stabs, left, right + 1, kind))
            && (l > left <==> exists k :: Last(stabs, left, right, kind, addr, k))
            && (l > left ==> l <= r && Last(stabs, left, right, kind, addr, l) && JustBeforeNext(stabs, l + 1, right, kind, r))
  {
    SearchBrackets(stabs, left, right, kind, addr);
  }

  /** The lines of the function that is found, or of the file, are in order. */
  ghost predicate LinesOrdered(stabs: seq<Stab>, n: nat, addr: Word)
    requires FilesOrdered(stabs, n, addr) && FunctionsOrdered(stabs, n, addr)
  {
    FileFound(stabs, n, addr);
    var (lfile, rfile) := BinSearch(stabs, 0, n - 1, N_SO, addr);
    if lfile == 0 then true
    else
      LevelFound(stabs, lfile, rfile, N_FUN, addr);
      var (lfun, rfun) := BinSearch(stabs, lfile, rfile, N_FUN, addr);
      if lfun <= rfun then
        stabs[lfun].value <= addr ==> Searchable(stabs, lfun, rfun, N_SLINE, addr - stabs[lfun].value)
      else Searchable(stabs, lfile, rfile, N_SLINE, addr)
  }

  ghost predicate Ordered(stabs: seq<Stab>, n: nat, addr: Word) {
    FilesOrdered(stabs, n, addr) && FunctionsOrdered(stabs, n, addr) && LinesOrdered(stabs, n, addr)
  }

  /** `addr -= info->eip_fn_addr` does not go below 0. */
  lemma FunctionAtOrBelow(stabs: seq<Stab>, n: nat, addr: Word)
    requires Ordered(stabs, n, addr) && BinSearch(stabs, 0, n - 1, N_SO, addr).0 != 0
    ensures var (lfile, rfile) := BinSearch(stabs, 0, n - 1, N_SO, addr);
            && 0 < lfile <= rfile < n
            && var (lfun, rfun) := BinSearch(stabs, lfile, rfile, N_FUN, addr);
            lfun <= rfun ==> lfile <= lfun && rfun <= rfile && stabs[lfun].value <= addr && stabs[lfun].kind != N_SLINE
  {
    FileFound(stabs, n, addr);
    var (lfile, rfile) := BinSearch(stabs, 0, n - 1, N_SO, addr);
    LevelFound(stabs, lfile, rfile, N_FUN, addr);
  }

  /** The three searches. */
  ghost function LevelsOf(stabs: seq<Stab>, n: nat, addr: Word): Levels
    requires Ordered(stabs, n, addr) && BinSearch(stabs, 0, n - 1, N_SO, addr).0 != 0
  {
    FunctionAtOrBelow(stabs, n, addr);
    var (lfile, rfile) := BinSearch(stabs, 0, n - 1, N_SO, addr);
    var (lfun, rfun) := BinSearch(stabs, lfile, rfile, N_FUN, addr);
    var found := lfun <= rfun;
    var rel: Word := if found then addr - stabs[lfun].value else addr;
    var (lline, rline) := BinSearch(stabs, if found then lfun else lfile, if found then rfun else rfile, N_SLINE, rel);
    Levels(lfile, rfile, lfun, rfun, rel, lline, rline)
  }

  // ----- the function

  /** `strfind` of lib/string.c: the first `c` at or after `from`, or the end of the string. */
  method StrFind(s: string, from: nat, c: char) returns (k: nat)
    requires from < |s| && s[|s| - 1] == '\0'
    ensures from <= k < |s| && (s[k] == c || s[k] == '\0')
    ensures forall j :: from <= j < k ==> s[j] != c && s[j] != '\0'
  {
    k := from;
    while s[k] != '\0'
      invariant from <= k < |s|
      invariant forall j :: from <= j < k ==> s[j] != c && s[j] != '\0'
      decreases |s| - k
    {
      if s[k] == c {
        break;
      }
      k := k + 1;
    }
  }

  /** The record that names the source file of the line `k`: the last N_SOL, or N_SO with a
      value, at or before it. */
  ghost predicate NamesFile(stabs: seq<Stab>, k: int)
    requires 0 <= k < |stabs|
  {
    stabs[k].kind == N_SOL || (stabs[k].kind == N_SO && stabs[k].value != 0)
  }

  ghost predicate FileRecord(stabs: seq<Stab>, lfile: int, lline: int, k: int)
    requires 0 <= lfile <= lline < |stabs|
  {
    && lfile - 1 <= k <= lline
    && (k >= lfile ==> NamesFile(stabs, k))
    && forall j :: k < j <= lline ==> !NamesFile(stabs, j)
  }

  /** Searches backwards from the line number for the file name. */
  method FindFile(stabs: seq<Stab>, lfile: int, lline: int) returns (k: int)
    requires 0 <= lfile <= lline < |stabs|
    ensures FileRecord(stabs, lfile, lline, k)
  {
    k := lline;
    while k >= lfile && stabs[k].kind != N_SOL && (stabs[k].kind != N_SO || stabs[k].value == 0)
      invariant lfile - 1 <= k <= lline
      invariant forall j :: k < j <= lline ==> !NamesFile(stabs, j)
    {
      k := k - 1;
    }
  }

  /** Counts the parameter records after the function. */
  method CountParameters(stabs: seq<Stab>, lfun: nat) returns (narg: nat)
    requires lfun + 1 < |stabs| && stabs[|stabs| - 1].kind != N_PSYM
    ensures lfun + narg + 1 < |stabs| && stabs[lfun + narg + 1].kind != N_PSYM
    ensures forall j :: lfun < j <= lfun + narg ==> stabs[j].kind == N_PSYM
  {
    narg := 0;
    while stabs[lfun + narg + 1].kind == N_PSYM
      invariant lfun + narg + 1 < |stabs|
      invariant forall j :: lfun < j <= lfun + narg ==> stabs[j].kind == N_PSYM
      decreases |stabs| - narg
    {
      narg := narg + 1;
    }
  }

  /** The string that an index names, when that is inside the string table. */
  ghost predicate IsText(stabstr: string, strx: Word, t: Text) {
    (strx < |stabstr| ==> t == StringAt(strx)) && (strx >= |stabstr| ==> t == Unknown)
  }

  ghost predicate GoodStrings(stabstr: string) {
    |stabstr| > 0 && stabstr[|stabstr| - 1] == '\0'
  }

  /** The indices stay inside the table. */
  ghost predicate InBounds(stabs: seq<Stab>, n: nat, lv: Levels) {
    && 0 < lv.lfile <= lv.rfile < n < |stabs|
    && lv.lfile <= lv.lfun < n
    && lv.lfile <= lv.lline < n
  }

  lemma LevelsInBounds(stabs: seq<Stab>, n: nat, addr: Word)
    requires Ordered(stabs, n, addr) && BinSearch(stabs, 0, n - 1, N_SO, addr).0 != 0
    ensures InBounds(stabs, n, LevelsOf(stabs, n, addr))
  {
    hide Ordered, Searchable, Last, JustBeforeNext, NoneIn;
    FileLevel(stabs, n, addr);
    FunctionAtOrBelow(stabs, n, addr);
    LineLevel(stabs, n, addr);
    var (lfile, rfile) := BinSearch(stabs, 0, n - 1, N_SO, addr);
    LevelFound(stabs, lfile, rfile, N_FUN, addr);
    var (lfun, rfun) := BinSearch(stabs, lfile, rfile, N_FUN, addr);
    var found := lfun <= rfun;
    var rel: Word := if found then addr - stabs[lfun].value else addr;
    LevelFound(stabs, if found then lfun else lfile, if found then rfun else rfile, N_SLINE, rel);
  }

  /** The three nested searches. */
  method SearchLevels(stabs: seq<Stab>, n: nat, eip: Word) returns (lv: Levels)
    requires Ordered(stabs, n, eip)
    ensures lv.lfile == BinSearch(stabs, 0, n - 1, N_SO, eip).0
    ensures lv.lfile != 0 ==> lv == LevelsOf(stabs, n, eip)
  {
    hide BinSearch, Searchable;
    var addr := eip;
    var lfile, rfile := StabBinsearch(stabs, 0, n - 1, N_SO, addr);
    if lfile == 0 {
      return Levels(lfile, rfile, 0, 0, addr, 0, 0);
    }
    FunctionAtOrBelow(stabs, n, eip);
    var lfun, rfun := StabBinsearch(stabs, lfile, rfile, N_FUN, addr);
    var lline, rline;
    if lfun <= rfun {
      addr := addr - stabs[lfun].value;
      lline, rline := StabBinsearch(stabs, lfun, rfun, N_SLINE, addr);
    } else {
      lline, rline := StabBinsearch(stabs, lfile, rfile, N_SLINE, addr);
    }
    return Levels(lfile, rfile, lfun, rfun, addr, lline, rline);
  }

  /** What the answer says about the function. */
  ghost predicate DescribesFunction(stabs: seq<Stab>, stabstr: string, eip: Word, lv: Levels, info: Info)
    requires 0 <= lv.lfun < |stabs|
  {
    if lv.lfun <= lv.rfun then
      info.fnAddr == stabs[lv.lfun].value && IsText(stabstr, stabs[lv.lfun].strx, info.fnName)
    else
      info.fnAddr == eip && info.fnName == Unknown
  }

  /** `eip_fn_namelen` stops at the colon or at the end of the name. */
  ghost predicate NameLength(stabstr: string, name: Text, len: nat) {
    match name
    case Unknown => len == 9
    case StringAt(strx) =>
      && strx + len < |stabstr| && (stabstr[strx + len] == ':' || stabstr[strx + len] == '\0')
      && forall j :: strx <= j < strx + len ==> stabstr[j] != ':' && stabstr[j] != '\0'
  }

  /** What it says about the line, the file and the number of arguments. */
  ghost predicate DescribesLine(stabs: seq<Stab>, stabstr: string, lfile: int, lfun: int, lline: int, info: Info)
    requires 0 <= lfile <= lline < |stabs| && 0 <= lfun
  {
    && info.line == stabs[lline].desc
    && (exists k :: FileRecord(stabs, lfile, lline, k)
          && if k >= lfile then IsText(stabstr, stabs[k].strx, info.file) else info.file == Unknown)
    && lfun + info.narg + 1 < |stabs| && stabs[lfun + info.narg + 1].kind != N_PSYM
    && forall j :: lfun < j <= lfun + info.narg ==> stabs[j].kind == N_PSYM
  }

  /** The part of the answer about the function. */
  method DescribeFunction(stabs: seq<Stab>, stabstr: string, eip: Word, lv: Levels) returns (info: Info)
    requires 0 <= lv.lfun < |stabs| && GoodStrings(stabstr)
    ensures DescribesFunction(stabs, stabstr, eip, lv, info) && NameLength(stabstr, info.fnName, info.fnNamelen)
    ensures info.file == Unknown && info.line == 0 && info.narg == 0
  {
    info := Info(Unknown, 0, Unknown, 9, eip, 0);
    if lv.lfun <= lv.rfun {
      if stabs[lv.lfun].strx < |stabstr| {
        info := info.(fnName := StringAt(stabs[lv.lfun].strx));
      }
      info := info.(fnAddr := stabs[lv.lfun].value);
    }
    if info.fnName.StringAt? {
      var colon := StrFind(stabstr, info.fnName.strx, ':');
      info := info.(fnNamelen := colon - info.fnName.strx);
    }
  }

  /** The part about the line, the file name and the arguments. */
  method DescribeLine(stabs: seq<Stab>, stabstr: string, lv: Levels, start: Info) returns (info: Info)
    requires 0 <= lv.lfile <= lv.lline < |stabs| && 0 <= lv.lfun && lv.lfun + 1 < |stabs|
    requires stabs[|stabs| - 1].kind != N_PSYM && start.file == Unknown
    ensures DescribesLine(stabs, stabstr, lv.lfile, lv.lfun, lv.lline, info)
    ensures info.fnName == start.fnName && info.fnNamelen == start.fnNamelen && info.fnAddr == start.fnAddr
  {
    info := start.(line := stabs[lv.lline].desc);
    var k := FindFile(stabs, lv.lfile, lv.lline);
    if k >= lv.lfile && stabs[k].strx < |stabstr| {
      info := info.(file := StringAt(stabs[k].strx));
    }
    var narg := CountParameters(stabs, lv.lfun);
    info := info.(narg := narg);
  }

  // ----- what is answered, in terms of the records

  /** The records of the file of an address. */
  ghost predicate IsFile(stabs: seq<Stab>, n: nat, addr: Word, lfile: int, rfile: int)
    requires n <= |stabs|
  {
    && 0 < lfile <= rfile < n
    && Last(stabs, 0, n - 1, N_SO, addr, lfile) && JustBeforeNext(stabs, lfile + 1, n - 1, N_SO, rfile)
  }

  /** The records that are taken for those of the function: from the last function at or below the
      address to the next one or, when all functions of the file are above the address, from
      the record of the file itself to the first of them. */
  ghost predicate IsFunction(stabs: seq<Stab>, lfile: int, rfile: int, addr: Word, lfun: int, rfun: int)
    requires 0 <= lfile && rfile < |stabs|
  {
    && lfile <= lfun <= rfun <= rfile && JustBeforeNext(stabs, lfun + 1, rfile, N_FUN, rfun)
    && !NoneIn(stabs, lfile, rfile + 1, N_FUN)
    && (|| Last(stabs, lfile, rfile, N_FUN, addr, lfun)
        || (lfun == lfile && forall i :: lfile <= i <= rfile && stabs[i].kind == N_FUN ==> stabs[i].value > addr))
  }

  /** The record whose line is answered: the last line at or below the address or, when there are
      only lines above it, the first record of all. */
  ghost predicate IsLine(stabs: seq<Stab>, left: int, right: int, addr: Word, lline: int)
    requires 0 <= left && right < |stabs|
  {
    && left <= lline <= right && !NoneIn(stabs, left, right + 1, N_SLINE)
    && (|| Last(stabs, left, right, N_SLINE, addr, lline)
        || (lline == left && forall i :: left <= i <= right && stabs[i].kind == N_SLINE ==> stabs[i].value > addr))
  }

  /** The line part of the answer for the records [left, right] of a file. */
  ghost predicate AnswersLine(stabs: seq<Stab>, stabstr: string, lfile: int, left: int, right: int, addr: Word, r: int, info: Info)
    requires 0 <= lfile <= left && right < |stabs|
  {
    if NoneIn(stabs, left, right + 1, N_SLINE) then r == -1 && info.line == 0 && info.file == Unknown && info.narg == 0
    else r == 0 && exists lline :: IsLine(stabs, left, right, addr, lline) && DescribesLine(stabs, stabstr, lfile, left, lline, info)
  }

  /** The whole answer: for an address with no file, with a file but no function, and with both. */
  ghost predicate Answers(stabs: seq<Stab>, stabstr: string, n: nat, eip: Word, r: int, info: Info)
    requires n <= |stabs|
  {
    && ((forall i :: 0 < i < n && stabs[i].kind == N_SO ==> stabs[i].value > eip) ==> r == -1 && info == NoInfo(eip))
    && (forall lfile, rfile :: IsFile(stabs, n, eip, lfile, rfile) && NoneIn(stabs, lfile, rfile + 1, N_FUN) ==>
          info.fnAddr == eip && info.fnName == Unknown && AnswersLine(stabs, stabstr, lfile, lfile, rfile, eip, r, info))
    && forall lfile, rfile, lfun, rfun ::
         IsFile(stabs, n, eip, lfile, rfile) && IsFunction(stabs, lfile, rfile, eip, lfun, rfun) ==>
           && info.fnAddr == stabs[lfun].value <= eip && IsText(stabstr, stabs[lfun].strx, info.fnName)
           && AnswersLine(stabs, stabstr, lfile, lfun, rfun, eip - stabs[lfun].value, r, info)
  }

  function NoInfo(eip: Word): Info {
    Info(Unknown, 0, Unknown, 9, eip, 0)
  }

  /** The brackets of a level are the only ones. */
  lemma FileIsUnique(stabs: seq<Stab>, n: nat, addr: Word, l: int, r: int, lfile: int, rfile: int)
    requires n <= |stabs| && IsFile(stabs, n, addr, l, r) && IsFile(stabs, n, addr, lfile, rfile)
    ensures l == lfile && r == rfile
  {
  }

  lemma FunctionIsUnique(stabs: seq<Stab>, lfile: int, rfile: int, addr: Word, l: int, r: int, lfun: int, rfun: int)
    requires 0 <= lfile <= rfile < |stabs| && stabs[lfile].kind != N_FUN
    requires IsFunction(stabs, lfile, rfile, addr, l, r) && IsFunction(stabs, lfile, rfile, addr, lfun, rfun)
    ensures l == lfun && r == rfun
  {
  }

  lemma NoFileAnswers(stabs: seq<Stab>, stabstr: string, n: nat, eip: Word)
    requires Ordered(stabs, n, eip) && BinSearch(stabs, 0, n - 1, N_SO, eip).0 == 0
    ensures Answers(stabs, stabstr, n, eip, -1, NoInfo(eip))
  {
    hide AnswersLine, JustBeforeNext;
    FileFound(stabs, n, eip);
  }

  /** The search for a function, in these terms. */
  lemma SearchFindsFunction(stabs: seq<Stab>, lfile: int, rfile: int, addr: Word)
    requires 0 <= lfile <= rfile < |stabs| && Searchable(stabs, lfile, rfile, N_FUN, addr) && stabs[lfile].kind == N_SO
    ensures var (lfun, rfun) := BinSearch(stabs, lfile, rfile, N_FUN, addr);
            if lfun <= rfun then IsFunction(stabs, lfile, rfile, addr, lfun, rfun)
            else lfun == lfile && NoneIn(stabs, lfile, rfile + 1, N_FUN)
  {
    SearchBrackets(stabs, lfile, rfile, N_FUN, addr);
    LevelFound(stabs, lfile, rfile, N_FUN, addr);
  }

  /** And the search for a line. */
  lemma SearchFindsLine(stabs: seq<Stab>, left: int, right: int, addr: Word)
    requires 0 <= left <= right < |stabs| && Searchable(stabs, left, right, N_SLINE, addr) && stabs[left].kind != N_SLINE
    ensures var (lline, rline) := BinSearch(stabs, left, right, N_SLINE, addr);
            if lline <= rline then IsLine(stabs, left, right, addr, lline)
            else NoneIn(stabs, left, right + 1, N_SLINE)
  {
    SearchBrackets(stabs, left, right, N_SLINE, addr);
    LevelFound(stabs, left, right, N_SLINE, addr);
  }

  /** What the three searches mean for the records. */
  ghost predicate LevelsFound(stabs: seq<Stab>, n: nat, eip: Word, lv: Levels)
    requires n <= |stabs|
  {
    && IsFile(stabs, n, eip, lv.lfile, lv.rfile) && stabs[lv.lfile].kind == N_SO
    && (if lv.lfun <= lv.rfun
        then IsFunction(stabs, lv.lfile, lv.rfile, eip, lv.lfun, lv.rfun)
             && stabs[lv.lfun].value <= eip && lv.addr == eip - stabs[lv.lfun].value
        else lv.lfun == lv.lfile && lv.addr == eip && NoneIn(stabs, lv.lfile, lv.rfile + 1, N_FUN))
    && var right := if lv.lfun <= lv.rfun then lv.rfun else lv.rfile;
       if lv.lline <= lv.rline then IsLine(stabs, lv.lfun, right, lv.addr, lv.lline)
       else NoneIn(stabs, lv.lfun, right + 1, N_SLINE)
  }

  lemma SearchesFind(stabs: seq<Stab>, n: nat, eip: Word)
    requires Ordered(stabs, n, eip) && BinSearch(stabs, 0, n - 1, N_SO, eip).0 != 0
    ensures n <= |stabs| && LevelsFound(stabs, n, eip, LevelsOf(stabs, n, eip))
  {
    hide Ordered, Searchable, Last, JustBeforeNext, NoneIn, BinSearch, IsFunction, IsLine;
    FileLevel(stabs, n, eip);
    FunctionAtOrBelow(stabs, n, eip);
    LineLevel(stabs, n, eip);
    var (lfile, rfile) := BinSearch(stabs, 0, n - 1, N_SO, eip);
    SearchFindsFunction(stabs, lfile, rfile, eip);
    var (lfun, rfun) := BinSearch(stabs, lfile, rfile, N_FUN, eip);
    if lfun <= rfun {
      SearchFindsLine(stabs, lfun, rfun, eip - stabs[lfun].value);
    } else {
      SearchFindsLine(stabs, lfile, rfile, eip);
    }
  }

  /** So that is what is answered. */
  lemma LevelsAnswer(stabs: seq<Stab>, stabstr: string, n: nat, eip: Word, r: int, info: Info)
    requires Ordered(stabs, n, eip) && BinSearch(stabs, 0, n - 1, N_SO, eip).0 != 0
    requires var lv := LevelsOf(stabs, n, eip);
             && InBounds(stabs, n, lv) && DescribesFunction(stabs, stabstr, eip, lv, info)
             && (if lv.lline <= lv.rline then r == 0 && DescribesLine(stabs, stabstr, lv.lfile, lv.lfun, lv.lline, info)
                 else r == -1 && info.line == 0 && info.file == Unknown && info.narg == 0)
    ensures n <= |stabs| && Answers(stabs, stabstr, n, eip, r, info)
  {
    hide Ordered, Last, JustBeforeNext, NoneIn, BinSearch, LevelsOf, DescribesLine;
    SearchesFind(stabs, n, eip);
    var lv := LevelsOf(stabs, n, eip);
    FileAtOrBelow(stabs, n, eip, lv.lfile);
    forall lfile, rfile | IsFile(stabs, n, eip, lfile, rfile) ensures lfile == lv.lfile && rfile == lv.rfile {
      FileIsUnique(stabs, n, eip, lfile, rfile, lv.lfile, lv.rfile);
    }
    forall lfun, rfun | IsFunction(stabs, lv.lfile, lv.rfile, eip, lfun, rfun)
      ensures lv.lfun <= lv.rfun && lfun == lv.lfun && rfun == lv.rfun
    {
      if lv.lfun <= lv.rfun {
        FunctionIsUnique(stabs, lv.lfile, lv.rfile, eip, lfun, rfun, lv.lfun, lv.rfun);
      }
    }
    var right := if lv.lfun <= lv.rfun then lv.rfun else lv.rfile;
    assert AnswersLine(stabs, stabstr, lv.lfile, lv.lfun, right, lv.addr, r, info);
  }

  lemma FileAtOrBelow(stabs: seq<Stab>, n: nat, addr: Word, lfile: int)
    requires n <= |stabs| && 0 < lfile < n && Last(stabs, 0, n - 1, N_SO, addr, lfile)
    ensures 0 < lfile < n && stabs[lfile].kind == N_SO && stabs[lfile].value <= addr
  {
  }

  /** What an answer says in terms of the indices that were found. */
  ghost predicate DescribesLevels(stabs: seq<Stab>, stabstr: string, eip: Word, lv: Levels, r: int, info: Info)
    requires |stabs| > 0
  {
    && InBounds(stabs, |stabs| - 1, lv)
    && (r == 0 <==> lv.lline <= lv.rline)
    && DescribesFunction(stabs, stabstr, eip, lv, info)
    && NameLength(stabstr, info.fnName, info.fnNamelen)
    && (r == 0 ==> DescribesLine(stabs, stabstr, lv.lfile, lv.lfun, lv.lline, info))
  }

  /** The part of `debuginfo_eip` behind the search for the file. */
  method DescribeLevels(stabs: seq<Stab>, stabstr: string, eip: Word, lv: Levels) returns (r: int, info: Info)
    requires |stabs| > 0 && Ordered(stabs, |stabs| - 1, eip) && GoodStrings(stabstr)
    requires BinSearch(stabs, 0, |stabs| - 2, N_SO, eip).0 != 0 && lv == LevelsOf(stabs, |stabs| - 1, eip)
    ensures r == 0 || r == -1
    ensures DescribesLevels(stabs, stabstr, eip, lv, r, info) && Answers(stabs, stabstr, |stabs| - 1, eip, r, info)
  {
    hide Ordered, LevelsOf, BinSearch, DescribesLine, DescribesFunction, NameLength, Answers, GoodStrings;
    EndRecord(stabs, |stabs| - 1, eip);
    LevelsInBounds(stabs, |stabs| - 1, eip);
    info := DescribeFunction(stabs, stabstr, eip, lv);
    if lv.lline > lv.rline {
      LevelsAnswer(stabs, stabstr, |stabs| - 1, eip, -1, info);
      return -1, info;
    }
    SameFunction(stabs, stabstr, eip, lv, info);
    info := DescribeLine(stabs, stabstr, lv, info);
    LevelsAnswer(stabs, stabstr, |stabs| - 1, eip, 0, info);
    return 0, info;
  }

  lemma EndRecord(stabs: seq<Stab>, n: nat, addr: Word)
    requires Ordered(stabs, n, addr)
    ensures |stabs| == n + 1 && stabs[n].kind != N_PSYM
  {
  }

  /** The description of the function is only about the fields for it. */
  lemma SameFunction(stabs: seq<Stab>, stabstr: string, eip: Word, lv: Levels, info: Info)
    requires 0 <= lv.lfun < |stabs| && DescribesFunction(stabs, stabstr, eip, lv, info)
    ensures forall other: Info :: other.fnAddr == info.fnAddr && other.fnName == info.fnName ==>
              DescribesFunction(stabs, stabstr, eip, lv, other)
  {
  }

  /** `debuginfo_eip`; `stabs` has the record that follows the table as its last one. */
  method DebuginfoEip(stabs: seq<Stab>, stabstr: string, eip: Word) returns (r: int, info: Info)
    requires |stabs| > 0 && Ordered(stabs, |stabs| - 1, eip) && eip >= ULIM
    ensures r == 0 || r == -1
    ensures !GoodStrings(stabstr) || BinSearch(stabs, 0, |stabs| - 2, N_SO, eip).0 == 0 ==>
              r == -1 && info == NoInfo(eip)
    ensures GoodStrings(stabstr) && BinSearch(stabs, 0, |stabs| - 2, N_SO, eip).0 != 0 ==>
              DescribesLevels(stabs, stabstr, eip, LevelsOf(stabs, |stabs| - 1, eip), r, info)
    ensures GoodStrings(stabstr) ==> Answers(stabs, stabstr, |stabs| - 1, eip, r, info)
  {
    hide Ordered, LevelsOf, BinSearch, DescribesLevels, Answers;
    info := Info(Unknown, 0, Unknown, 9, eip, 0);
    if |stabstr| == 0 || stabstr[|stabstr| - 1] != '\0' {
      return -1, info;
    }
    var lv := SearchLevels(stabs, |stabs| - 1, eip);
    if lv.lfile == 0 {
      NoFileAnswers(stabs, stabstr, |stabs| - 1, eip);
      return -1, info;
    }
    r, info := DescribeLevels(stabs, stabstr, eip, lv);
  }

  /** What the orderings give for each level. */
  lemma FileLevel(stabs: seq<Stab>, n: nat, addr: Word)
    requires Ordered(stabs, n, addr) && BinSearch(stabs, 0, n - 1, N_SO, addr).0 != 0
    ensures var (lfile, rfile) := BinSearch(stabs, 0, n - 1, N_SO, addr);
            && 0 < lfile <= rfile < n < |stabs| && stabs[lfile].kind == N_SO
            && Last(stabs, 0, n - 1, N_SO, addr, lfile) && JustBeforeNext(stabs, lfile + 1, n - 1, N_SO, rfile)
            && Searchable(stabs, lfile, rfile, N_FUN, addr)
  {
    FileFound(stabs, n, addr);
  }

  lemma LineLevel(stabs: seq<Stab>, n: nat, addr: Word)
    requires Ordered(stabs, n, addr) && BinSearch(stabs, 0, n - 1, N_SO, addr).0 != 0
    ensures var (lfile, rfile) := BinSearch(stabs, 0, n - 1, N_SO, addr);
            && 0 < lfile <= rfile < n < |stabs|
            && var (lfun, rfun) := BinSearch(stabs, lfile, rfile, N_FUN, addr);
            && (lfun <= rfun ==>
                  && lfile <= lfun && rfun <= rfile && stabs[lfun].value <= addr
                  && Searchable(stabs, lfun, rfun, N_SLINE, addr - stabs[lfun].value))
            && (lfun > rfun ==> Searchable(stabs, lfile, rfile, N_SLINE, addr))
  {
    FunctionAtOrBelow(stabs, n, addr);
  }

  /** The backward search for the file name ends at an included file or at the file's own
      record, if that has a value, and does not leave the file. */
  lemma FileNameInsideFile(stabs: seq<Stab>, n: nat, addr: Word, k: int)
    requires Ordered(stabs, n, addr) && BinSearch(stabs, 0, n - 1, N_SO, addr).0 != 0
    requires var lv := LevelsOf(stabs, n, addr);
             InBounds(stabs, n, lv) && lv.lline <= lv.rfile && stabs[lv.lfile].value != 0
             && FileRecord(stabs, lv.lfile, lv.lline, k)
    ensures var lv := LevelsOf(stabs, n, addr);
            lv.lfile <= k <= lv.lline && (k == lv.lfile || stabs[k].kind == N_SOL)
  {
    hide Ordered, Searchable, Last;
    FileLevel(stabs, n, addr);
    assert NamesFile(stabs, LevelsOf(stabs, n, addr).lfile);
  }

  /** The levels nest when there is a function record at or below the address in the file
      that is found, and a line record at or below the relative address in the function. */
  lemma LevelsNest(stabs: seq<Stab>, n: nat, addr: Word)
    requires Ordered(stabs, n, addr) && BinSearch(stabs, 0, n - 1, N_SO, addr).0 != 0
    requires var lv := LevelsOf(stabs, n, addr);
             InBounds(stabs, n, lv) &&
             (exists f :: Last(stabs, lv.lfile, lv.rfile, N_FUN, addr, f)) &&
             (lv.lfun <= lv.rfun < |stabs| ==> exists g :: Last(stabs, lv.lfun, lv.rfun, N_SLINE, lv.addr, g))
    ensures var lv := LevelsOf(stabs, n, addr);
            && 0 < lv.lfile < lv.lfun < lv.lline <= lv.rline <= lv.rfun <= lv.rfile
            && stabs[lv.lfun].value <= addr && lv.addr == addr - stabs[lv.lfun].value
            && Last(stabs, 0, n - 1, N_SO, addr, lv.lfile)
            && Last(stabs, lv.lfile, lv.rfile, N_FUN, addr, lv.lfun)
            && Last(stabs, lv.lfun, lv.rfun, N_SLINE, lv.addr, lv.lline)
  {
    hide Ordered, Searchable, Last, NoneIn;
    FunctionAtOrBelow(stabs, n, addr);
    var (lfile, rfile) := BinSearch(stabs, 0, n - 1, N_SO, addr);
    FileLevel(stabs, n, addr);
    LevelFound(stabs, lfile, rfile, N_FUN, addr);
    var (lfun, rfun) := BinSearch(stabs, lfile, rfile, N_FUN, addr);
    LineLevel(stabs, n, addr);
    LevelFound(stabs, lfun, rfun, N_SLINE, addr - stabs[lfun].value);
  }
}
