/** The small rules of the command-line front end (`ggoled_cli/src/main.rs`):
    parsing a screen position, grouping stdin lines into screens of text, the
    per-frame delay of `anim` and where `anim` draws each frame. The older
    program (`src/main.rs`) has the same parser, grouping loop and delay rule;
    `LegacyCli` adds what differs there. */
module Cli {
  import opened Common
  import opened Bitmaps
  import opened Layers

  // ---------------------------------------------------------------------
  // DrawPos::from_str and to_option

  datatype DrawPos = Coord(n: int) | Center

  /** `isize` on the 64-bit targets the program is built for. */
  const ISIZE_MIN: int := -0x8000_0000_0000_0000
  const ISIZE_MAX: int := 0x7fff_ffff_ffff_ffff

  predicate IsDigit(c: char) {
    '0' <= c <= '9'
  }

  predicate AllDigits(s: string) {
    forall i :: 0 <= i < |s| ==> IsDigit(s[i])
  }

  /** The decimal value of a string of ASCII digits, most significant first. */
  function DigitsValue(s: string): (v: nat)
    requires AllDigits(s)
    decreases |s|
  {
    if s == [] then 0
    else DigitsValue(s[..|s| - 1]) * 10 + (s[|s| - 1] as int - '0' as int)
  }

  /** `str::parse::<isize>`: an optional `+` or `-`, then one or more ASCII
      digits whose value fits in `isize`; anything else (the empty string, a
      lone sign, a space, an overflow) is an error. */
  function ParseIsize(s: string): (r: Option<int>)
    ensures r.Some? ==> ISIZE_MIN <= r.value <= ISIZE_MAX
    ensures r.Some? ==> |s| > 0 && (IsDigit(s[0]) || s[0] == '+' || s[0] == '-')
  {
    if s == [] then None
    else
      var neg := s[0] == '-';
      var digits := if s[0] == '-' || s[0] == '+' then s[1..] else s;
      if digits == [] || !AllDigits(digits) then None
      else
        var v: int := DigitsValue(digits);
        var n := if neg then -v else v;
        if ISIZE_MIN <= n <= ISIZE_MAX then Some(n) else None
  }

  /** ASCII lowercasing. `to_lowercase` maps more characters than these, but
      no character outside `A`-`Z` lowercases to a letter of `center`, so the
      comparison below does not depend on the rest. */
  function Lower(s: string): (r: string)
    ensures |r| == |s|
    ensures forall i :: 0 <= i < |s| ==> r[i] == if 'A' <= s[i] <= 'Z' then (s[i] as int + 32) as char else s[i]
  {
    seq(|s|, i requires 0 <= i < |s| => if 'A' <= s[i] <= 'Z' then (s[i] as int + 32) as char else s[i])
  }

  /** Lowercasing leaves no capital letter, keeps every other character, and
      lowercasing again changes nothing. */
  lemma LowerIdempotent(s: string)
    ensures forall i :: 0 <= i < |s| ==> !('A' <= Lower(s)[i] <= 'Z')
    ensures forall i :: 0 <= i < |s| && !('A' <= s[i] <= 'Z') ==> Lower(s)[i] == s[i]
    ensures Lower(Lower(s)) == Lower(s)
  {
  }

  /** `DrawPos::from_str`: a number is a coordinate; otherwise `center` or
      `c` in any case is `Center`; anything else is refused. */
  function FromStr(s: string): (r: Result<DrawPos>)
    ensures r.Ok? && r.value.Coord? <==> ParseIsize(s).Some?
    ensures r.Ok? && r.value.Coord? ==> r.value.n == ParseIsize(s).value
    ensures r == Ok(Center) <==> ParseIsize(s).None? && (Lower(s) == "center" || Lower(s) == "c")
    ensures r.Err? ==> r.error == Bail("not a valid position")
  {
    match ParseIsize(s)
    case Some(n) => Ok(Coord(n))
    case None =>
      if Lower(s) in ["center", "c"] then Ok(Center) else Err(Bail("not a valid position"))
  }

  /** `DrawPos::to_option`: a coordinate, or nothing for "centre it". */
  function ToOption(p: DrawPos): (o: Option<int>) {
    match p
    case Coord(c) => Some(c)
    case Center => None
  }

  /** The way back from `Option<isize>` to a position. */
  function FromOption(o: Option<int>): DrawPos {
    match o
    case Some(c) => Coord(c)
    case None => Center
  }

  /** `to_option` loses nothing: it is a bijection onto `Option<isize>`. */
  lemma ToOptionRoundTrip(p: DrawPos, o: Option<int>)
    ensures FromOption(ToOption(p)) == p
    ensures ToOption(FromOption(o)) == o
    ensures ToOption(p) == None <==> p == Center
  {
  }

  // Decimal rendering, the inverse the parser is checked against.

  function DigitChar(d: nat): (c: char)
    requires d < 10
    ensures IsDigit(c) && c as int - '0' as int == d
  {
    ('0' as int + d) as char
  }

  /** Decimal digits of `n` without leading zeros. */
  function Digits(n: nat): (s: string)
    ensures |s| > 0 && AllDigits(s)
    decreases n
  {
    if n < 10 then [DigitChar(n)] else Digits(n / 10) + [DigitChar(n % 10)]
  }

  /** `n` written in decimal, as `isize`'s `Display` writes it. */
  function Show(n: int): string {
    if n < 0 then "-" + Digits(-n) else Digits(n)
  }

  lemma {:induction false} DigitsValueOfDigits(n: nat)
    ensures DigitsValue(Digits(n)) == n
    decreases n
  {
    var s := Digits(n);
    if n >= 10 {
      DigitsValueOfDigits(n / 10);
      assert s[..|s| - 1] == Digits(n / 10);
    }
  }

  /** Every `isize` written in decimal parses back to itself, with or
      without a sign, so every such string is a coordinate; a number outside
      `isize` written the same way is refused. */
  lemma ParseShow(n: int)
    ensures ParseIsize(Show(n)) == if ISIZE_MIN <= n <= ISIZE_MAX then Some(n) else None
    ensures FromStr(Show(n)) == if ISIZE_MIN <= n <= ISIZE_MAX then Ok(Coord(n)) else Err(Bail("not a valid position"))
  {
    var str := Show(n);
    if n < 0 {
      ParseNegative(-n);
    } else {
      ParseNonNegative(n);
    }
    assert Lower(str)[0] == str[0];
    assert Lower(str) != "center" && Lower(str) != "c";
  }

  lemma ParseNonNegative(m: nat)
    ensures ParseIsize(Digits(m)) == if m <= ISIZE_MAX then Some(m) else None
  {
    DigitsValueOfDigits(m);
  }

  lemma ParseNegative(m: nat)
    requires m > 0
    ensures ParseIsize("-" + Digits(m)) == if -(m as int) >= ISIZE_MIN then Some(-(m as int)) else None
  {
    DigitsValueOfDigits(m);
    var str := "-" + Digits(m);
    assert str[0] == '-' && str[1..] == Digits(m);
  }

  /** A lone sign, a space and a misspelling are refused; an explicit `+`
      is accepted. */
  lemma FromStrRefuses()
    ensures FromStr("+7") == Ok(Coord(7))
    ensures FromStr(" 1") == Err(Bail("not a valid position"))
    ensures FromStr("-") == Err(Bail("not a valid position"))
    ensures FromStr("centre") == Err(Bail("not a valid position"))
  {
    assert "+7"[1..] == "7" && "7"[..0] == [];
    assert Lower("centre")[4] == 'r';
  }

  /** `center` and `c` are accepted in any mix of upper and lower case. */
  lemma FromStrCenter(s: string)
    requires |s| == 6 || |s| == 1
    requires forall i :: 0 <= i < |s| ==> s[i] == "center"[i] || s[i] == "CENTER"[i]
    ensures FromStr(s) == Ok(Center)
  {
    assert !IsDigit(s[0]) && s[0] != '+' && s[0] != '-';
    if |s| == 6 {
      assert Lower(s) == "center";
    } else {
      assert Lower(s) == "c";
    }
  }

  // ---------------------------------------------------------------------
  // Grouping the lines of stdin into screens of text

  /** `line.replace('\r', "")`. */
  function StripCR(line: string): (r: string)
    ensures '\r' !in r
    ensures '\r' !in line ==> r == line
    ensures forall c :: c in r ==> c in line
    ensures |line| == 1 ==> r == if line[0] == '\r' then [] else line
  {
    if line == [] then []
    else (if line[0] == '\r' then [] else [line[0]]) + StripCR(line[1..])
  }

  /** Removing `'\r'` works piece by piece: every other character stays, in
      its order. */
  lemma {:induction false} StripCRAppend(a: string, b: string)
    ensures StripCR(a + b) == StripCR(a) + StripCR(b)
  {
    if a != [] {
      assert (a + b)[1..] == a[1..] + b;
      StripCRAppend(a[1..], b);
    } else {
      assert a + b == b;
    }
  }

  /** `lines.join("\n")`. */
  function Join(lines: seq<string>): string
    decreases |lines|
  {
    if lines == [] then ""
    else if |lines| == 1 then lines[0]
    else Join(lines[..|lines| - 1]) + "\n" + lines[|lines| - 1]
  }

  /** The loop's state: the lines collected since the last screen, and the
      texts shown so far, in order. */
  datatype Grouping = Grouping(pending: seq<string>, screens: seq<string>)

  /** One stdin line: a line equal to the delimiter (once `\r` is gone)
      shows the collected lines, even none, and starts a new group; any other
      line is collected. */
  function Feed(g: Grouping, line: string, delimiter: Option<string>): Grouping {
    var l := StripCR(line);
    if delimiter == Some(l) then Grouping([], g.screens + [Join(g.pending)])
    else Grouping(g.pending + [l], g.screens)
  }

  function Fed(g: Grouping, lines: seq<string>, delimiter: Option<string>): Grouping
    decreases |lines|
  {
    if lines == [] then g else Feed(Fed(g, lines[..|lines| - 1], delimiter), lines[|lines| - 1], delimiter)
  }

  /** The texts shown for the whole of stdin: at end of input the last group
      is shown only if it holds a line. */
  function Screens(lines: seq<string>, delimiter: Option<string>): seq<string> {
    var g := Fed(Grouping([], []), lines, delimiter);
    g.screens + if g.pending != [] then [Join(g.pending)] else []
  }

  /** The stdin loop of `text` without an argument: each text it hands to
      `add_text` (after `clear_layers`), in order. `lines` is stdin split at
      line ends. */
  method GroupStdin(lines: seq<string>, delimiter: Option<string>) returns (screens: seq<string>)
    ensures screens == Screens(lines, delimiter)
  {
    var pending: seq<string> := [];
    screens := [];
    for i := 0 to |lines|
      invariant Grouping(pending, screens) == Fed(Grouping([], []), lines[..i], delimiter)
    {
      assert lines[..i + 1][..i] == lines[..i];
      var line := StripCR(lines[i]);
      if Some(line) == delimiter {
        screens := screens + [Join(pending)];
        pending := [];
      } else {
        pending := pending + [line];
      }
    }
    assert lines[..|lines|] == lines;
    if pending != [] {
      screens := screens + [Join(pending)];
    }
  }

  /** The lines of stdin with `\r` removed. */
  function Stripped(lines: seq<string>): (r: seq<string>)
    ensures |r| == |lines| && forall i :: 0 <= i < |lines| ==> r[i] == StripCR(lines[i])
  {
    seq(|lines|, i requires 0 <= i < |lines| => StripCR(lines[i]))
  }

  predicate Delimits(line: string, delimiter: Option<string>) {
    delimiter == Some(StripCR(line))
  }

  lemma {:induction false} FedAppend(g: Grouping, a: seq<string>, b: seq<string>, delimiter: Option<string>)
    ensures Fed(g, a + b, delimiter) == Fed(Fed(g, a, delimiter), b, delimiter)
    decreases |b|
  {
    if b == [] {
      assert a + b == a;
    } else {
      var n := |b| - 1;
      assert (a + b)[..|a + b| - 1] == a + b[..n];
      FedAppend(g, a, b[..n], delimiter);
    }
  }

  /** The screens already shown never influence what comes after. */
  lemma {:induction false} FedKeepsScreens(p: seq<string>, s: seq<string>, b: seq<string>, delimiter: Option<string>)
    ensures var f := Fed(Grouping(p, []), b, delimiter);
            Fed(Grouping(p, s), b, delimiter) == Grouping(f.pending, s + f.screens)
    decreases |b|
  {
    if b != [] {
      var n := |b| - 1;
      FedKeepsScreens(p, s, b[..n], delimiter);
      var f := Fed(Grouping(p, []), b[..n], delimiter);
      assert s + f.screens + [Join(f.pending)] == s + (f.screens + [Join(f.pending)]);
    }
  }

  lemma {:induction false} FedWithoutDelimiter(lines: seq<string>, delimiter: Option<string>)
    requires forall i :: 0 <= i < |lines| ==> !Delimits(lines[i], delimiter)
    ensures Fed(Grouping([], []), lines, delimiter) == Grouping(Stripped(lines), [])
    decreases |lines|
  {
    if lines != [] {
      var n := |lines| - 1;
      var front := lines[..n];
      assert forall i :: 0 <= i < |front| ==> front[i] == lines[i];
      FedWithoutDelimiter(front, delimiter);
      FedCollects(lines, delimiter);
    }
  }

  /** The last line of `lines`, not a delimiter, is collected after the
      others. */
  lemma FedCollects(lines: seq<string>, delimiter: Option<string>)
    requires lines != [] && !Delimits(lines[|lines| - 1], delimiter)
    requires Fed(Grouping([], []), lines[..|lines| - 1], delimiter) == Grouping(Stripped(lines[..|lines| - 1]), [])
    ensures Fed(Grouping([], []), lines, delimiter) == Grouping(Stripped(lines), [])
  {
    StrippedLast(lines);
  }

  lemma StrippedLast(lines: seq<string>)
    requires lines != []
    ensures Stripped(lines) == Stripped(lines[..|lines| - 1]) + [StripCR(lines[|lines| - 1])]
  {
  }

  /** Without any delimiter line, all of stdin is one screen, its lines
      joined with `\n`; empty input shows nothing. */
  lemma ScreensWithoutDelimiter(lines: seq<string>, delimiter: Option<string>)
    requires forall i :: 0 <= i < |lines| ==> !Delimits(lines[i], delimiter)
    ensures Screens(lines, delimiter) == if lines == [] then [] else [Join(Stripped(lines))]
  {
    FedWithoutDelimiter(lines, delimiter);
  }

  /** A delimiter line cuts the input in two: everything before it is shown
      (its last group even when empty), and what follows is grouped as if it
      were the whole of stdin. */
  lemma ScreensSplit(a: seq<string>, d: string, b: seq<string>, delimiter: Option<string>)
    requires Delimits(d, delimiter)
    ensures var g := Fed(Grouping([], []), a, delimiter);
            Screens(a + [d] + b, delimiter) == g.screens + [Join(g.pending)] + Screens(b, delimiter)
  {
    var g0 := Grouping([], []);
    var g := Fed(g0, a, delimiter);
    var s := g.screens + [Join(g.pending)];
    FedAppend(g0, a, [d], delimiter);
    assert [d][..0] == [];
    assert Fed(g, [d], delimiter) == Feed(g, d, delimiter) == Grouping([], s);
    FedAppend(g0, a + [d], b, delimiter);
    FedKeepsScreens([], s, b, delimiter);
    var f := Fed(g0, b, delimiter);
    assert Fed(g0, a + [d] + b, delimiter) == Grouping(f.pending, s + f.screens);
    var tail := if f.pending != [] then [Join(f.pending)] else [];
    assert Screens(b, delimiter) == f.screens + tail;
    assert s + f.screens + tail == s + (f.screens + tail);
  }

  /** A delimiter with nothing collected before it blanks the screen. */
  lemma DelimiterFirst(d: string, delimiter: Option<string>)
    requires Delimits(d, delimiter)
    ensures Screens([d], delimiter) == [""]
  {
    assert [d][..0] == [];
    assert Fed(Grouping([], []), [d], delimiter) == Feed(Grouping([], []), d, delimiter);
    assert Feed(Grouping([], []), d, delimiter) == Grouping([], [""]);
  }

  // ---------------------------------------------------------------------
  // anim: the frames and their delays

  /** A frame to show and how long it stays, in nanoseconds. */
  datatype Shown = Shown(bitmap: Raster, delay: nat)

  /** `Duration::from_secs(1).div(f)`: whole nanoseconds, rounded down. */
  function Period(framerate: Option<nat>): Option<nat>
    requires framerate != Some(0)
  {
    match framerate
    case None => None
    case Some(f) => Some(SECOND / f)
  }

  /** The framerate's period if given, else the frame's own delay, else one
      second. */
  function FrameDelay(period: Option<nat>, f: Frame): nat {
    if period.Some? then period.value else if f.delay.Some? then f.delay.value else SECOND
  }

  function FrameCount(decoded: seq<seq<Frame>>): nat
    decreases |decoded|
  {
    if decoded == [] then 0 else FrameCount(decoded[..|decoded| - 1]) + |decoded[|decoded| - 1]|
  }

  /** The frames of one path with their delays. */
  function PathFrames(fs: seq<Frame>, period: Option<nat>): (r: seq<Shown>)
    ensures |r| == |fs| && forall q :: 0 <= q < |fs| ==> r[q] == Shown(fs[q].bitmap, FrameDelay(period, fs[q]))
  {
    seq(|fs|, q requires 0 <= q < |fs| => Shown(fs[q].bitmap, FrameDelay(period, fs[q])))
  }

  /** The `flat_map` over the paths: every frame of every path, in order. */
  function Flatten(decoded: seq<seq<Frame>>, period: Option<nat>): (r: seq<Shown>)
    ensures |r| == FrameCount(decoded)
    decreases |decoded|
  {
    if decoded == [] then []
    else Flatten(decoded[..|decoded| - 1], period) + PathFrames(decoded[|decoded| - 1], period)
  }

  /** `anim` before it draws: a zero framerate and an empty path list panic
      (in that order); otherwise the frames of all paths with their delays.
      `decoded` holds what `decode_frames` gives for each path. */
  function AnimFrames(framerate: Option<nat>, decoded: seq<seq<Frame>>): (r: Result<seq<Shown>>)
    ensures r == Err(Bail("Framerate must be non-zero")) <==> framerate == Some(0)
    ensures r == Err(Bail("No image paths")) <==> framerate != Some(0) && decoded == []
    ensures r.Ok? ==> |r.value| == FrameCount(decoded)
  {
    if framerate == Some(0) then Err(Bail("Framerate must be non-zero"))
    else if decoded == [] then Err(Bail("No image paths"))
    else Ok(Flatten(decoded, Period(framerate)))
  }

  lemma {:induction false} FlattenAppend(a: seq<seq<Frame>>, b: seq<seq<Frame>>, period: Option<nat>)
    ensures Flatten(a + b, period) == Flatten(a, period) + Flatten(b, period)
    decreases |b|
  {
    if b == [] {
      assert a + b == a;
    } else {
      var n := |b| - 1;
      var ab := a + b;
      assert ab[..|ab| - 1] == a + b[..n];
      assert ab[|ab| - 1] == b[n];
      FlattenAppend(a, b[..n], period);
      var last := PathFrames(b[n], period);
      assert Flatten(ab, period) == Flatten(a + b[..n], period) + last;
      assert Flatten(b, period) == Flatten(b[..n], period) + last;
      assert Flatten(a, period) + Flatten(b[..n], period) + last
          == Flatten(a, period) + (Flatten(b[..n], period) + last);
    }
  }

  /** Frame `q` of path `p` is shown after every frame of the earlier paths
      and the earlier frames of its own path, with the framerate's period if
      one was given, else its own delay, else one second. */
  lemma AnimFramesAt(framerate: Option<nat>, decoded: seq<seq<Frame>>, p: nat, q: nat)
    requires framerate != Some(0) && p < |decoded| && q < |decoded[p]|
    ensures var r := AnimFrames(framerate, decoded);
            var k := FrameCount(decoded[..p]) + q;
            var f := decoded[p][q];
            && r.Ok? && k < |r.value|
            && r.value[k] == Shown(f.bitmap, if framerate.Some? then SECOND / framerate.value
                                             else if f.delay.Some? then f.delay.value else SECOND)
  {
    var period := Period(framerate);
    assert decoded == decoded[..p] + [decoded[p]] + decoded[p + 1..];
    FlattenAppend(decoded[..p] + [decoded[p]], decoded[p + 1..], period);
    FlattenAppend(decoded[..p], [decoded[p]], period);
    assert [decoded[p]][..0] == [];
  }

  /** With a framerate every frame lasts the same time, which is zero when
      the framerate exceeds a billion frames per second. */
  lemma AnimFramesRate(f: nat, decoded: seq<seq<Frame>>, k: nat)
    requires f > 0 && decoded != [] && k < FrameCount(decoded)
    ensures var r := AnimFrames(Some(f), decoded);
            r.Ok? && r.value[k].delay == SECOND / f && (r.value[k].delay > 0 <==> f <= SECOND)
  {
    FlattenRate(decoded, SECOND / f, k);
  }

  lemma {:induction false} FlattenRate(decoded: seq<seq<Frame>>, t: nat, k: nat)
    requires k < FrameCount(decoded)
    ensures Flatten(decoded, Some(t))[k].delay == t
    decreases |decoded|
  {
    var n := |decoded| - 1;
    var front := Flatten(decoded[..n], Some(t));
    if k < |front| {
      FlattenRate(decoded[..n], t, k);
    }
  }

  // ---------------------------------------------------------------------
  // anim: where each frame is drawn

  /** The default `anim` position as written: `cx` and `cy` are both
      computed from the screen's width and the bitmap's width. */
  function AnimPlaceAsWritten(width: nat, b: Raster, sx: DrawPos, sy: DrawPos): (int, int) {
    var cx := TruncDiv(width as int - b.w as int, 2);
    var cy := TruncDiv(width as int - b.w as int, 2);
    (if ToOption(sx).Some? then ToOption(sx).value else cx,
     if ToOption(sy).Some? then ToOption(sy).value else cy)
  }

  /** A 16×16 frame on the 128×64 screen is drawn at y = 56 as written, so
      its bottom eight rows fall off the screen; centred it sits at y = 24. */
  lemma AnimPlaceCounterexample()
    ensures var b := Filled(16, 16, true);
            && AnimPlaceAsWritten(128, b, Center, Center) == (56, 56)
            && AnimPlaceAsWritten(128, b, Center, Center).1 + b.h > 64
            && Place(128, 64, b, Center, Center) == (56, 24)
  {
  }

  /** How the placement as written relates to the centred one: x is always
      the same; y is the same for a given coordinate, or when the screen and
      the bitmap differ by as much in height as in width; otherwise a centred
      y is a copy of the centred x. */
  lemma AnimPlaceVersusPlace(width: nat, height: nat, b: Raster, sx: DrawPos, sy: DrawPos)
    ensures var a := AnimPlaceAsWritten(width, b, sx, sy);
            var p := Place(width, height, b, sx, sy);
            && a.0 == p.0
            && (sy.Coord? || width as int - b.w as int == height as int - b.h as int ==> a == p)
            && (sx.Center? && sy.Center? ==> a.1 == a.0)
  {
  }

  /** Where a bitmap goes for a pair of positions: a coordinate is used as
      given; `Center` centres along that axis with the truncating division,
      against the screen's width for x and its height for y. */
  function Place(width: nat, height: nat, b: Raster, sx: DrawPos, sy: DrawPos): (p: (int, int))
    ensures sx.Coord? ==> p.0 == sx.n
    ensures sy.Coord? ==> p.1 == sy.n
    ensures sx.Center? ==> -p.0 <= b.w
    ensures sy.Center? ==> -p.1 <= b.h
    ensures sx.Center? && b.w <= width ==> 0 <= p.0 && p.0 + b.w <= width && 0 <= (width - (p.0 + b.w)) - p.0 <= 1
    ensures sy.Center? && b.h <= height ==> 0 <= p.1 && p.1 + b.h <= height && 0 <= (height - (p.1 + b.h)) - p.1 <= 1
  {
    CenterAxis(width, b.w);
    CenterAxis(height, b.h);
    (match sx case Coord(v) => v case Center => TruncDiv(width as int - b.w as int, 2),
     match sy case Coord(v) => v case Center => TruncDiv(height as int - b.h as int, 2))
  }

  /** A draw of one frame: the bitmap, where it goes and how long the loop
      waits before the next. */
  datatype DrawCall = DrawCall(bitmap: Raster, x: int, y: int, delay: nat)

  /** The draw of one shown frame in the loop as written: placed by
      `AnimPlaceAsWritten`, so a centred y comes from the screen's width. */
  function CallFor(width: nat, s: Shown, sx: DrawPos, sy: DrawPos): DrawCall {
    var p := AnimPlaceAsWritten(width, s.bitmap, sx, sy);
    DrawCall(s.bitmap, p.0, p.1, s.delay)
  }

  /** `passes` runs of `draw_animation`: every frame once per pass, in
      order, `frame_idx` counting the draws. `loops` passes are made when
      `loops > 0`; with `loops == 0` the loop never ends, and every finite
      stretch of it is this method with some number of passes. */
  method AnimationSchedule(width: nat, shown: seq<Shown>, passes: nat, sx: DrawPos, sy: DrawPos)
    returns (calls: seq<DrawCall>, frameIdx: nat)
    ensures |calls| == passes * |shown| && frameIdx == |calls|
    ensures forall k :: 0 <= k < |calls| ==> calls[k] == CallFor(width, shown[k % |shown|], sx, sy)
  {
    calls := [];
    frameIdx := 0;
    var n := |shown|;
    for l := 0 to passes
      invariant |calls| == l * n && frameIdx == |calls|
      invariant forall k :: 0 <= k < |calls| ==> calls[k] == CallFor(width, shown[k % n], sx, sy)
    {
      for i := 0 to n
        invariant |calls| == l * n + i && frameIdx == |calls|
        invariant forall k :: 0 <= k < |calls| ==> calls[k] == CallFor(width, shown[k % n], sx, sy)
      {
        IndexDecompose(i, l, n);
        calls := calls + [CallFor(width, shown[i], sx, sy)];
        frameIdx := frameIdx + 1;
      }
    }
  }
}
