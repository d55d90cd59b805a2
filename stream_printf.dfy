/** The formatting half of `Stream::printf` (`src/io.rs`): a `%`-specifier
  * expander that copies ordinary characters, turns `%%` into `%`, and
  * replaces each other specifier, up to and including its first letter,
  * with the text of the next argument. Arguments are given as their
  * display text; handing the result to the native stream is left out. */
module StreamPrintf {
  import opened Common
  import opened Text

  /** The index of the first letter of `s`, which ends a specifier. */
  function FirstLetter(s: string): (r: Option<nat>)
    ensures r.Some? ==> r.value < |s| && IsAsciiAlphabetic(s[r.value])
    ensures r.Some? ==> forall t :: 0 <= t < r.value ==> !IsAsciiAlphabetic(s[t])
    ensures r.None? ==> forall t :: 0 <= t < |s| ==> !IsAsciiAlphabetic(s[t])
  {
    if s == [] then None
    else if IsAsciiAlphabetic(s[0]) then Some(0)
    else match FirstLetter(s[1..])
      case None => None
      case Some(k) => Some(k + 1)
  }

  /** The first argument's text, or nothing when none is left. */
  function NextArg(args: seq<string>): string {
    if args == [] then [] else args[0]
  }

  /** The arguments after the first. */
  function RestArgs(args: seq<string>): seq<string> {
    if args == [] then [] else args[1..]
  }

  /** What `printf` writes for `format` with the argument texts `args`. */
  function Formatted(format: string, args: seq<string>): string
    decreases |format|
  {
    if format == [] then []
    else if format[0] != '%' then [format[0]] + Formatted(format[1..], args)
    else if |format| >= 2 && format[1] == '%' then "%" + Formatted(format[2..], args)
    else match FirstLetter(format[1..])
      case None => []
      case Some(k) => NextArg(args) + Formatted(format[k + 2..], RestArgs(args))
  }

  /** `Formatted` of a suffix starting with an ordinary character. */
  lemma FormattedPlainAt(format: string, i: nat, args: seq<string>)
    requires i < |format| && format[i] != '%'
    ensures Formatted(format[i..], args) == [format[i]] + Formatted(format[i + 1..], args)
  {
    assert format[i..][1..] == format[i + 1..];
  }

  /** `Formatted` of a suffix starting with `%%`. */
  lemma FormattedPercentAt(format: string, i: nat, args: seq<string>)
    requires i + 1 < |format| && format[i] == '%' && format[i + 1] == '%'
    ensures Formatted(format[i..], args) == "%" + Formatted(format[i + 2..], args)
  {
    assert format[i..][2..] == format[i + 2..];
  }

  /** `Formatted` of a suffix starting with a specifier whose letter is at
    * `letter`, or which has no letter when `letter` is the end. */
  lemma FormattedSpecifierAt(format: string, i: nat, letter: nat, args: seq<string>)
    requires i < |format| && format[i] == '%' && !(i + 1 < |format| && format[i + 1] == '%')
    requires i + 1 <= letter <= |format|
    requires FirstLetter(format[i + 1..]).Some? ==> letter == i + 1 + FirstLetter(format[i + 1..]).value
    requires FirstLetter(format[i + 1..]).None? ==> letter == |format|
    ensures letter < |format| ==>
      Formatted(format[i..], args) == NextArg(args) + Formatted(format[letter + 1..], RestArgs(args))
    ensures letter == |format| ==> Formatted(format[i..], args) == []
  {
    var rest := format[i..];
    assert rest[1..] == format[i + 1..];
    if letter < |format| {
      assert rest[letter - i + 1..] == format[letter + 1..];
    }
  }

  /** The specifier-skipping loop: the position of the first letter at or
    * after `start`, or the end of the format. */
  method SkipSpecifier(format: string, start: nat) returns (end: nat)
    requires start <= |format|
    ensures FirstLetter(format[start..]).Some? ==> end == start + FirstLetter(format[start..]).value
    ensures FirstLetter(format[start..]).None? ==> end == |format|
  {
    end := start;
    while end < |format| && !IsAsciiAlphabetic(format[end])
      invariant start <= end <= |format|
      invariant forall t :: start <= t < end ==> !IsAsciiAlphabetic(format[t])
      decreases |format| - end
    {
      end := end + 1;
    }
    var k := FirstLetter(format[start..]);
    if k.Some? {
      assert format[start..][k.value] == format[start + k.value];
      if end < |format| {
        assert format[start..][end - start] == format[end];
      }
    } else {
      forall t | start <= t < |format| ensures !IsAsciiAlphabetic(format[t]) {
        assert format[start..][t - start] == format[t];
      }
    }
  }

  /** One turn of the format loop: the text it pushes, and the format and
    * argument positions it moves to. */
  method FormatStep(format: string, i: nat, args: seq<string>, next: nat)
    returns (piece: string, i': nat, next': nat)
    requires i < |format| && next <= |args|
    ensures i < i' <= |format| && next <= next' <= |args|
    ensures piece + Formatted(format[i'..], args[next'..]) == Formatted(format[i..], args[next..])
  {
    if format[i] != '%' {
      FormattedPlainAt(format, i, args[next..]);
      piece, i', next' := [format[i]], i + 1, next;
    } else if i + 1 < |format| && format[i + 1] == '%' {
      FormattedPercentAt(format, i, args[next..]);
      piece, i', next' := "%", i + 2, next;
    } else {
      piece, i', next' := SpecifierStep(format, i, args, next);
    }
  }

  /** The turn of the format loop for a specifier: skip to its letter and
    * write the next argument. */
  method SpecifierStep(format: string, i: nat, args: seq<string>, next: nat)
    returns (piece: string, i': nat, next': nat)
    requires i < |format| && format[i] == '%' && !(i + 1 < |format| && format[i + 1] == '%')
    requires next <= |args|
    ensures i < i' <= |format| && next <= next' <= |args|
    ensures piece + Formatted(format[i'..], args[next'..]) == Formatted(format[i..], args[next..])
  {
    var letter := SkipSpecifier(format, i + 1);
    FormattedSpecifierAt(format, i, letter, args[next..]);
    if letter == |format| {
      piece, i', next' := [], |format|, next;
      assert format[i'..] == [];
    } else if next < |args| {
      assert args[next..][1..] == args[next + 1..];
      piece, i', next' := args[next], letter + 1, next + 1;
    } else {
      piece, i', next' := [], letter + 1, next;
    }
  }

  /** The format loop of `Stream::printf`: walk the format once, keeping
    * the position of the next unused argument. */
  method Printf(format: string, args: seq<string>) returns (formatted: string)
    ensures formatted == Formatted(format, args)
  {
    formatted := [];
    var i := 0;
    var next := 0;
    while i < |format|
      invariant 0 <= i <= |format| && 0 <= next <= |args|
      invariant formatted + Formatted(format[i..], args[next..]) == Formatted(format, args)
      decreases |format| - i
    {
      var piece;
      piece, i, next := FormatStep(format, i, args, next);
      formatted := formatted + piece;
    }
  }

  /** `printf_from_utf8` formats exactly as `printf` does. */
  method PrintfFromUtf8(format: string, args: seq<string>) returns (formatted: string)
    ensures formatted == Formatted(format, args)
  {
    formatted := Printf(format, args);
  }

  /** Text without `%` is copied unchanged and uses no argument. */
  lemma {:induction false} FormattedPlain(s: string, args: seq<string>)
    requires '%' !in s
    ensures Formatted(s, args) == s
    decreases |s|
  {
    if s != [] {
      FormattedPlain(s[1..], args);
    }
  }

  /** Ordinary characters before a format are copied in front of it. */
  lemma {:induction false} FormattedPrefix(p: string, s: string, args: seq<string>)
    requires '%' !in p
    ensures Formatted(p + s, args) == p + Formatted(s, args)
    decreases |p|
  {
    if p != [] {
      assert p[0] in p && p == [p[0]] + p[1..];
      var f := p + s;
      assert f[0] == p[0] && f[1..] == p[1..] + s;
      assert Formatted(f, args) == [p[0]] + Formatted(f[1..], args);
      FormattedPrefix(p[1..], s, args);
    } else {
      assert p + s == s;
    }
  }

  /** `%%` writes one `%` and uses no argument. */
  lemma FormattedPercent(rest: string, args: seq<string>)
    ensures Formatted("%%" + rest, args) == "%" + Formatted(rest, args)
  {
    assert ("%%" + rest)[2..] == rest;
  }

  /** A specifier `%`, then characters that are not letters (not starting
    * with `%`), then a letter, writes the next argument's text, or nothing
    * when none is left, and moves on to the following argument. */
  lemma FormattedSpecifier(spec: string, letter: char, rest: string, args: seq<string>)
    requires forall t :: 0 <= t < |spec| ==> !IsAsciiAlphabetic(spec[t])
    requires spec == [] || spec[0] != '%'
    requires IsAsciiAlphabetic(letter)
    ensures Formatted("%" + spec + [letter] + rest, args)
      == NextArg(args) + Formatted(rest, RestArgs(args))
  {
    var f := "%" + spec + [letter] + rest;
    assert f[1..] == spec + [letter] + rest;
    assert f[1..][|spec|] == letter;
    assert f[|spec| + 2..] == rest;
  }

  /** A `%` (not followed by `%`) with no letter after it swallows the
    * rest of the format. */
  lemma FormattedUnterminated(tail: string, args: seq<string>)
    requires forall t :: 0 <= t < |tail| ==> !IsAsciiAlphabetic(tail[t])
    requires tail == [] || tail[0] != '%'
    ensures Formatted("%" + tail, args) == []
  {
    assert ("%" + tail)[1..] == tail;
  }

  /** The number of specifiers that take an argument. */
  function Specifiers(format: string): nat
    decreases |format|
  {
    if format == [] then 0
    else if format[0] != '%' then Specifiers(format[1..])
    else if |format| >= 2 && format[1] == '%' then Specifiers(format[2..])
    else match FirstLetter(format[1..])
      case None => 0
      case Some(k) => 1 + Specifiers(format[k + 2..])
  }

  /** Each specifier takes at most one argument, in order: arguments past
    * the number of specifiers are never used. */
  lemma {:induction false} FormattedExtraArgs(format: string, args: seq<string>, more: seq<string>)
    requires |args| >= Specifiers(format)
    ensures Formatted(format, args + more) == Formatted(format, args)
    decreases |format|
  {
    if format == [] {
    } else if format[0] != '%' {
      FormattedExtraArgs(format[1..], args, more);
    } else if |format| >= 2 && format[1] == '%' {
      FormattedExtraArgs(format[2..], args, more);
    } else {
      match FirstLetter(format[1..])
      case None =>
      case Some(k) =>
        assert (args + more)[1..] == args[1..] + more;
        FormattedExtraArgs(format[k + 2..], args[1..], more);
    }
  }

  /** The crate's own unit test: `Number: %d` with the argument 42. */
  lemma FormattedExample()
    ensures Formatted("Number: %d", ["42"]) == "Number: 42"
  {
    FormattedSpecifier([], 'd', [], ["42"]);
    FormattedPrefix("Number: ", "%d", ["42"]);
    assert "Number: " + "%d" == "Number: %d";
    assert "%" + [] + ['d'] + [] == "%d";
  }
}
