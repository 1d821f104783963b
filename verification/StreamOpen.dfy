/** fopen() of a '+' stream: the mode string, the first open, and the position
    it leaves the stream at. */
module StreamOpen {
  import opened Wrappers
  import opened Bytes
  import opened AccessMethod
  import opened StreamSpec
  import opened StreamRefines
  import D = Doc

  // ---- __fpmode() ---------------------------------------------------------------

  function Lower(c: char): char {
    if 'A' <= c <= 'Z' then (c as int + 32) as char else c
  }

  datatype Letters = Letters(read: bool, write: bool, append: bool, binary: bool)

  /** One character of the mode string; None is refused. */
  function Letter(f: Letters, c: char): Option<Letters> {
    if c == 'a' then if f.read then None else Some(f.(write := true, append := true))
    else if c == 'b' then Some(f.(binary := true))
    else if c == 'r' then if f.write || f.append then None else Some(f.(read := true))
    else if c == 'w' then if f.read then None else Some(f.(write := true))
    else if c == '+' then
      if !f.read && !f.write then None else Some(f.(read := true, write := true))
    else Some(f)
  }

  /** The letters up to the end or the first comma. */
  function AllLetters(f: Letters, mode: string): Option<Letters>
    decreases |mode|
  {
    if mode == [] || mode[0] == ',' then Some(f)
    else
      match Letter(f, Lower(mode[0]))
      case None => None
      case Some(g) => AllLetters(g, mode[1..])
  }

  const NO_LETTERS := Letters(false, false, false, false)
  const MODE_SIZE := 85
  const RECORD_OPTION := "record"
  const BSAM_OPTION := "bsam"
  const RLSE_OPTION := "rlse"

  /** strstr() of the lower-cased text. */
  predicate Mentions(text: string, word: string)
    decreases |text|
  {
    |word| <= |text| && (Starts(text, word) || (text != [] && Mentions(text[1..], word)))
  }

  predicate Starts(text: string, word: string) {
    |word| <= |text| && forall i :: 0 <= i < |word| ==> Lower(text[i]) == word[i]
  }

  /** The part of the mode from the first comma on. */
  function OptionText(mode: string): string
    decreases |mode|
  {
    if mode == [] || mode[0] == ',' then mode else OptionText(mode[1..])
  }

  datatype Options = Options(record: bool, bsam: bool, rlse: bool)

  function OptionsIn(text: string): Options {
    Options(Mentions(text, RECORD_OPTION), Mentions(text, BSAM_OPTION), Mentions(text, RLSE_OPTION))
  }

  datatype Mode = Mode(letters: Letters, posend: bool, extend: bool, dcbout: bool, options: Options)

  /** The flags __fpmode() sets; a '+' mode with record i/o is refused. */
  function Fpmode(mode: string): Option<Mode> {
    var kept := if |mode| <= MODE_SIZE then mode else mode[..MODE_SIZE];
    match AllLetters(NO_LETTERS, kept)
    case None => None
    case Some(f) =>
      var options := OptionsIn(OptionText(kept));
      if (!f.read && !f.write) || (f.read && f.write && options.record) then None
      else
        var first, plus := Lower(mode[0]), f.read && f.write;
        Some(Mode(f, plus && f.append, plus && first != 'w', f.write && !(f.read && first == 'r'), options))
  }

  /** __fpmode(): the loop over the mode string. */
  method ParseMode(mode: string) returns (m: Option<Mode>)
    ensures m == Fpmode(mode)
  {
    var n := if |mode| <= MODE_SIZE then |mode| else MODE_SIZE;
    var kept := mode[..n];
    assert mode[..|mode|] == mode && kept[0..] == kept;
    var f, i := NO_LETTERS, 0;
    while i < n && mode[i] != ','
      invariant 0 <= i <= n
      invariant AllLetters(NO_LETTERS, kept) == AllLetters(f, kept[i..])
      invariant OptionText(kept) == OptionText(kept[i..])
    {
      assert kept[i..][1..] == kept[i + 1..];
      match Letter(f, Lower(mode[i])) {
        case None => return None;
        case Some(g) => f := g;
      }
      i := i + 1;
    }
    var options := Options(Mentions(kept[i..], RECORD_OPTION), Mentions(kept[i..], BSAM_OPTION),
                           Mentions(kept[i..], RLSE_OPTION));
    if !f.read && !f.write { return None; }
    var posend, extend, dcbout := false, false, false;
    if f.read && f.write {
      if options.record { return None; }
      if f.append { posend := true; }
      if Lower(mode[0]) != 'w' { extend := true; }
    }
    if f.write && !(f.read && Lower(mode[0]) == 'r') { dcbout := true; }
    m := Some(Mode(f, posend, extend, dcbout, options));
  }

  /** What the letters of an accepted mode can be. */
  lemma {:induction false} LettersKeep(f: Letters, mode: string)
    requires f.append ==> f.write
    ensures var r := AllLetters(f, mode);
      r.Some? ==> (r.value.append ==> r.value.write) && (f.append ==> r.value.append)
    decreases |mode|
  {
    if mode != [] && mode[0] != ',' {
      match Letter(f, Lower(mode[0]))
      case None =>
      case Some(g) => LettersKeep(g, mode[1..]);
    }
  }

  /** A mode that begins with r accepts no letter a. */
  lemma {:induction false} ReadersDoNotAppend(f: Letters, mode: string)
    requires f.read && !f.append
    ensures var r := AllLetters(f, mode); r.Some? ==> !r.value.append
    decreases |mode|
  {
    if mode != [] && mode[0] != ',' {
      match Letter(f, Lower(mode[0]))
      case None =>
      case Some(g) => ReadersDoNotAppend(g, mode[1..]);
    }
  }

  /** Of the '+' modes only one that begins with w may open OUTPUT and empty the
      data set; only "a+" starts at an end that is not counted yet, and it never
      starts with a DCB that reads.  A mode that begins with r, w or a opens for
      output at a position that fopen() knows. */
  lemma PlusModes(mode: string)
    ensures var m := Fpmode(mode);
      m.Some? && m.value.letters.read && m.value.letters.write ==>
        && PlusMode(m.value) && (OpensOutput(m.value) ==> Lower(mode[0]) == 'w')
        && (Lower(mode[0]) in {'r', 'w', 'a'} ==> LibraryMode(m.value))
  {
    var m := Fpmode(mode);
    if m.Some? && m.value.letters.read && m.value.letters.write {
      var kept := if |mode| <= MODE_SIZE then mode else mode[..MODE_SIZE];
      LettersKeep(NO_LETTERS.(write := true, append := true), kept[1..]);
      ReadersDoNotAppend(NO_LETTERS.(read := true), kept[1..]);
    }
  }

  lemma LetterStep(f: Letters, c: char, rest: string)
    requires c != ','
    ensures OptionText([c] + rest) == OptionText(rest)
    ensures AllLetters(f, [c] + rest) ==
            match Letter(f, Lower(c)) case None => None case Some(g) => AllLetters(g, rest)
  {
    assert ([c] + rest)[1..] == rest;
  }

  lemma NoMoreLetters(f: Letters, options: string)
    requires options == "" || options[0] == ','
    ensures AllLetters(f, options) == Some(f) && OptionText(options) == options
  {
  }

  /** The flags of a mode whose letters and options are known. */
  lemma FlagsOf(mode: string, f: Letters, options: string)
    requires mode != "" && |mode| <= 85 && (f.read || f.write)
    requires AllLetters(NO_LETTERS, mode) == Some(f) && OptionText(mode) == options
    ensures var m, plus := Fpmode(mode), f.read && f.write;
      && (m.None? <==> plus && Mentions(options, "record"))
      && (m.Some? ==>
            && m.value.letters == f
            && (m.value.posend <==> plus && f.append) && (m.value.extend <==> plus && Lower(mode[0]) != 'w')
            && (m.value.dcbout <==> f.write && !(f.read && Lower(mode[0]) == 'r'))
            && m.value.options ==
               Options(Mentions(options, "record"), Mentions(options, "bsam"), Mentions(options, "rlse")))
  {
    hide AllLetters, OptionText, Mentions;
  }

  /** b and +, in any order. */
  predicate Middle(mid: string) { forall i :: 0 <= i < |mid| ==> mid[i] == 'b' || mid[i] == '+' }

  lemma {:induction false} MiddleLetters(f: Letters, mid: string, options: string)
    requires (f.read || f.write) && Middle(mid) && (options == "" || options[0] == ',')
    ensures OptionText(mid + options) == options
    ensures AllLetters(f, mid + options) ==
            Some(Letters(f.read || '+' in mid, f.write || '+' in mid, f.append, f.binary || 'b' in mid))
    decreases |mid|
  {
    hide OptionText, AllLetters;
    NoMoreLetters(f, options);
    if mid == "" {
      assert mid + options == options;
    } else {
      var c, rest := mid[0], mid[1..];
      assert mid == [c] + rest && mid + options == [c] + (rest + options);
      LetterStep(f, c, rest + options);
      MiddleLetters(if c == 'b' then f.(binary := true) else f.(read := true, write := true), rest, options);
    }
  }

  lemma FirstLetter(letter: char, rest: string)
    requires letter == 'r' || letter == 'w' || letter == 'a'
    ensures OptionText([letter] + rest) == OptionText(rest)
    ensures AllLetters(NO_LETTERS, [letter] + rest) ==
            AllLetters(Letters(letter == 'r', letter != 'r', letter == 'a', false), rest)
  {
    hide OptionText, AllLetters;
    LetterStep(NO_LETTERS, letter, rest);
  }

  /** The modes of fopen(): r, w or a, then b and + in any order, then options behind a comma.
      r reads, w and a write, + does both; + with record is refused. */
  lemma DocumentedModes(letter: char, mid: string, options: string)
    requires (letter == 'r' || letter == 'w' || letter == 'a') && Middle(mid)
    requires (options == "" || options[0] == ',') && 1 + |mid| + |options| <= 85
    ensures var m, plus := Fpmode([letter] + mid + options), '+' in mid;
      && (m.None? <==> plus && Mentions(options, "record"))
      && (m.Some? ==>
            && m.value.letters == Letters(letter == 'r' || plus, letter != 'r' || plus, letter == 'a', 'b' in mid)
            && (m.value.posend <==> plus && letter == 'a') && (m.value.extend <==> plus && letter != 'w')
            && (m.value.dcbout <==> letter != 'r')
            && m.value.options ==
               Options(Mentions(options, "record"), Mentions(options, "bsam"), Mentions(options, "rlse")))
  {
    hide Mentions, AllLetters, OptionText, Fpmode, Middle;
    var mode, plus := [letter] + mid + options, '+' in mid;
    assert mode == [letter] + (mid + options);
    FirstLetter(letter, mid + options);
    MiddleLetters(Letters(letter == 'r', letter != 'r', letter == 'a', false), mid, options);
    FlagsOf(mode, Letters(letter == 'r' || plus, letter != 'r' || plus, letter == 'a', 'b' in mid), options);
  }

  /** An output open that does not empty the data set is at a counted end. */
  predicate LibraryMode(m: Mode) {
    PlusMode(m) && (m.dcbout && m.extend ==> m.letters.append)
  }

  predicate OpensOutput(m: Mode) { m.dcbout && !m.letters.append && !m.extend }

  predicate PlusMode(m: Mode) {
    && m.letters.read && m.letters.write && (m.posend <==> m.letters.append)
    && (m.dcbout || m.extend) && (m.letters.append ==> m.dcbout)
  }

  // ---- the first open --------------------------------------------------------------

  /** A new FILE over a closed volume. */
  function NewFile(m: Mode, member: bool, v: Volume): Stream {
    Stream(Kind(m.letters.read, m.letters.write, m.letters.append, m.letters.binary, member),
           false, m.posend, m.dcbout, m.extend, false, false, false, false, false,
           -1, 0, [], 0, 0, NoErr, v)
  }

  /** The end of __fpopn(): open, and for "a+" count what is there. */
  function Fopen(m: Mode, member: bool, v: Volume): (r: (Stream, int))
    requires v.Ok() && v.dcb.Closed?
    ensures r.1 == 0 ==> Sane(r.0)
  {
    hide Fpswt;
    var (s, err) := Fpopen(NewFile(m, member, v));
    if err != 0 || !s.posend then (s, err)
    else
      var (t, rc) := Fpswt(s, false);
      if rc != 0 then (t, 1)
      else
        var (u, rc2) := Fpswt(t, true);
        (u, if rc2 != 0 then 1 else 0)
  }

  /** A volume ready for a stream: closed, on DASD, and it will not fail. */
  predicate Ready(v: Volume, binary: bool) {
    v.Ok() && v.dcb.Closed? && v.geo.dasd && NoFailure(v.answers) && CleanRecords(v.geo, binary, v.recs)
  }

  /** After the first open every output open is EXTEND, whatever the device says
      to this one. */
  lemma OpenExtends(m: Mode, member: bool, v: Volume)
    requires PlusMode(m) && v.Ok() && v.dcb.Closed?
    ensures var (s, err) := Fopen(m, member, v);
      err == 0 ==> Sane(s) && (s.extend || s.kind.append) && (s.kind.append ==> !s.updat)
  {
    hide Turn, SkipAll, GetcReading;
    var (s, err) := Fpopen(NewFile(m, member, v));
    if err == 0 && s.posend { TurnedToWriting(s); }
  }

  /** A stream turned to writing is not open UPDAT. */
  lemma TurnedToWriting(s: Stream)
    requires Sane(s)
    ensures var (t, rc) := Fpswt(s, false);
      rc == 0 ==> var (u, rc2) := Fpswt(t, true); rc2 == 0 ==> !u.updat
  {
    hide Fpswt;
  }

  lemma EmptyWriting(s: Stream)
    requires Healthy(s) && s.dcbout && !s.dirty && !s.eof && s.upto == 0
    requires s.vol.recs == [] && s.filepos == 0
    ensures Writing(s) && Abstract(s) == D.Doc([], [], 0)
  {
  }

  /** "r+" starts at the first byte of what is there. */
  lemma OpenUpdate(m: Mode, v: Volume)
    requires PlusMode(m) && !m.dcbout && Ready(v, m.letters.binary)
    ensures var (s, err) := Fopen(m, false, v);
      && err == 0 && !s.posend && Reading(s) && ModeOf(s) == D.Fresh
      && Abstract(s) == D.Doc(Views(v.geo, m.letters.binary, v.recs), [], 0)
  {
    hide Views, CleanRecords;
    var s := Fopen(m, false, v).0;
    assert Placed(Seen(s), 0, s.buf[..0], 0, 0);
  }

  /** "w+" starts with an empty data set - the one open that is OUTPUT. */
  lemma OpenOutput(m: Mode, v: Volume)
    requires PlusMode(m) && m.dcbout && !m.letters.append && !m.extend
    requires Ready(v, m.letters.binary)
    ensures var (s, err) := Fopen(m, false, v);
      err == 0 && !s.posend && Writing(s) && Abstract(s) == D.Doc([], [], 0)
  {
    EmptyWriting(Fopen(m, false, v).0);
  }

  /** Reading to the end with POSEND set counts the whole byte view. */
  lemma CountToEnd(s: Stream)
    requires Healthy(s) && s.posend && s.dcbout && s.upto == 0 && !s.dirty
    ensures var (t, rc) := Fpswt(s, false); var seen := Views(s.vol.geo, s.kind.binary, s.vol.recs);
      rc == 0 && !t.posend && Reading(t) && Seen(t) == seen && t.filepos == |D.Flat(seen)|
  {
    hide Views, CleanRecords, SkipAll;
    var t := Redcb(s, false).0;
    var u := t.(filepos := 0);
    assert Placed(Seen(u), 0, u.buf[..0], 0, 0);
    SkipAllRefines(u);
    assert Fpswt(s, false) == (SkipTo(t, s.filepos), 0);
  }

  /** "a+" starts behind everything that is there, and knows how much that is. */
  lemma OpenAppend(m: Mode, v: Volume)
    requires PlusMode(m) && m.letters.append && Ready(v, m.letters.binary)
    ensures var (s, err) := Fopen(m, false, v); var seen := Views(v.geo, m.letters.binary, v.recs);
      err == 0 && !s.posend && Writing(s) && Abstract(s) == D.Doc(seen, [], |D.Flat(seen)|)
  {
    hide Views, CleanRecords;
    var s := Fpopen(NewFile(m, false, v)).0;
    CountToEnd(s);
    AppendTurns(Fpswt(s, false).0);
  }

  /** A '+' mode opens a stream whose position is where its bytes go exactly when it is a
      library mode or there is no byte in front: the others open EXTEND at filepos 0. */
  lemma OpenPlaced(m: Mode, v: Volume)
    requires PlusMode(m) && Ready(v, m.letters.binary)
    ensures var (s, err) := Fopen(m, false, v);
      && err == 0
      && (Tidy(s) <==> LibraryMode(m) || D.Flat(Views(v.geo, m.letters.binary, v.recs)) == [])
  {
    hide Views, CleanRecords, D.Flat, Fpswt;
    if !m.dcbout {
      OpenUpdate(m, v);
    } else if m.letters.append {
      OpenAppend(m, v);
    } else if !m.extend {
      OpenOutput(m, v);
    } else {
      var s := Fopen(m, false, v).0;
      assert Seen(s) == Views(v.geo, m.letters.binary, v.recs);
    }
  }

  /** "bw+": the letter that decides is not the first one, so the data set is extended. */
  lemma LeadingB()
    ensures var m := Mode(Letters(true, true, false, true), false, true, true, Options(false, false, false));
      && Fpmode("bw+") == Some(m) && PlusMode(m) && !LibraryMode(m) && !OpensOutput(m)
  {
    assert "bw+"[1..] == "w+" && "w+"[1..] == "+" && "+"[1..] == "";
    assert !Mentions("", RECORD_OPTION);
  }
}
