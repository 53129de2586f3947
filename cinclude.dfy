/**
 * The argument parser of the `cinclude` template tag in
 * `pybb/templatetags/pybb_tags.py`: `{% cinclude <path> [with k=v ...] [only] %}`.
 * The tag's bits are the strings `split_contents` yields: the tag name first,
 * then the template path, then the options. Filter expressions are kept as their
 * source text.
 */
module Cinclude {
  import opened Wrappers

  /** A quoted path is a literal template name; anything else is an expression. */
  datatype TemplatePath = Literal(name: string) | Expression(source: string)

  /** The include node the tag compiles to. */
  datatype IncludeNode = IncludeNode(template: TemplatePath, extraContext: map<string, string>, isolatedContext: bool)

  /** The `TemplateSyntaxError`s the parser raises, with the values their messages show. */
  datatype SyntaxError =
    | MissingTemplateName(tag: string)
    | RepeatedOption(option: string)
    | WithoutKeywords(tag: string)
    | UnknownOption(tag: string, option: string)

  /** A value of the `options` dictionary: the `with` keywords, or `True` for `only`. */
  datatype OptionValue = Keywords(namemap: map<string, string>) | OnlyFlag

  /** `split_contents` yields the tag name and no empty bit. */
  predicate TagBits(bits: seq<string>) {
    |bits| >= 1 && forall i :: 0 <= i < |bits| ==> |bits[i]| > 0
  }

  // ---------------------------------------------------------------------------
  // token_kwargs, without legacy syntax

  /** `\w` without the UNICODE flag. */
  predicate IsWordChar(c: char) {
    'a' <= c <= 'z' || 'A' <= c <= 'Z' || '0' <= c <= '9' || c == '_'
  }

  /** The length of the leading run of word characters. */
  function WordPrefix(s: string): (n: nat)
    ensures n <= |s|
    ensures forall i :: 0 <= i < n ==> IsWordChar(s[i])
    ensures n < |s| ==> !IsWordChar(s[n])
    decreases |s|
  {
    if s == [] || !IsWordChar(s[0]) then 0 else 1 + WordPrefix(s[1..])
  }

  /** `kwarg_re = (?:(\w+)=)?(.+)` matches with its first group set: a word, `=`,
      and a non-empty value (a bit holds no line break). */
  predicate IsKwarg(bit: string) {
    var n := WordPrefix(bit);
    0 < n && n + 1 < |bit| && bit[n] == '='
  }

  function KwargKey(bit: string): string
    requires IsKwarg(bit)
  {
    bit[..WordPrefix(bit)]
  }

  function KwargValue(bit: string): string
    requires IsKwarg(bit)
  {
    bit[WordPrefix(bit) + 1..]
  }

  /** A keyword bit is its key, `=` and its value, with a non-empty word as key
      and a non-empty value. */
  lemma KwargSplit(bit: string)
    requires IsKwarg(bit)
    ensures bit == KwargKey(bit) + "=" + KwargValue(bit)
    ensures |KwargKey(bit)| > 0 && |KwargValue(bit)| > 0
    ensures forall i :: 0 <= i < |KwargKey(bit)| ==> IsWordChar(KwargKey(bit)[i])
  {
  }

  /** Conversely `key=value` is a keyword bit with that key and that value. */
  lemma {:induction false} KwargJoin(key: string, value: string)
    requires |key| > 0 && |value| > 0
    requires forall i :: 0 <= i < |key| ==> IsWordChar(key[i])
    ensures IsKwarg(key + "=" + value)
    ensures KwargKey(key + "=" + value) == key && KwargValue(key + "=" + value) == value
  {
    WordPrefixJoin(key, value);
  }

  lemma {:induction false} WordPrefixJoin(key: string, value: string)
    requires forall i :: 0 <= i < |key| ==> IsWordChar(key[i])
    ensures WordPrefix(key + "=" + value) == |key|
    decreases |key|
  {
    var s := key + "=" + value;
    if key != [] {
      assert s[1..] == key[1..] + "=" + value;
      WordPrefixJoin(key[1..], value);
    } else {
      assert s[0] == '=';
    }
  }

  /** The option names are not keyword bits. */
  lemma OptionNamesNotKwargs()
    ensures !IsKwarg("with") && !IsKwarg("only")
  {
    assert WordPrefix("with"[3..]) == 1;
    assert WordPrefix("only"[3..]) == 1;
  }

  /** `token_kwargs(bits, parser, support_legacy=False)`: takes the leading keyword
      bits off `bits` into `kwargs` (a later key replaces an earlier one) and gives
      the bits that remain. */
  function TokenKwargs(bits: seq<string>, kwargs: map<string, string>): (r: (map<string, string>, seq<string>))
    ensures |r.1| <= |bits|
    decreases |bits|
  {
    if bits == [] || !IsKwarg(bits[0]) then (kwargs, bits)
    else TokenKwargs(bits[1..], kwargs[KwargKey(bits[0]) := KwargValue(bits[0])])
  }

  /** `token_kwargs` takes a leading run of keyword bits and stops at the first
      other bit; its result is empty exactly when it took none and was given none. */
  lemma {:induction false} TokenKwargsSplit(bits: seq<string>, kwargs: map<string, string>)
    ensures var r := TokenKwargs(bits, kwargs);
      && r.1 == bits[|bits| - |r.1|..]
      && (forall j :: 0 <= j < |bits| - |r.1| ==> IsKwarg(bits[j]))
      && (r.1 != [] ==> !IsKwarg(r.1[0]))
      && kwargs.Keys <= r.0.Keys
      && (r.0 == map[] <==> kwargs == map[] && r.1 == bits)
    decreases |bits|
  {
    if bits != [] && IsKwarg(bits[0]) {
      var key := KwargKey(bits[0]);
      var next := kwargs[key := KwargValue(bits[0])];
      TokenKwargsSplit(bits[1..], next);
      var r := TokenKwargs(bits[1..], next);
      assert TokenKwargs(bits, kwargs) == r;
      assert bits[1..][|bits| - 1 - |r.1|..] == bits[|bits| - |r.1|..];
      assert forall j :: 0 <= j < |bits| - 1 ==> bits[1..][j] == bits[j + 1];
      assert key in r.0 && |r.1| < |bits|;
    }
  }

  /** The number of leading bits `token_kwargs` takes. */
  function Taken(bits: seq<string>, kwargs: map<string, string>): (t: nat)
    ensures t <= |bits|
  {
    |bits| - |TokenKwargs(bits, kwargs).1|
  }

  /** One of the first `t` bits is a keyword bit with key `k`. */
  predicate Names(bits: seq<string>, t: nat, k: string)
    requires t <= |bits|
  {
    exists j :: 0 <= j < t && IsKwarg(bits[j]) && KwargKey(bits[j]) == k
  }

  /** Bit `j` is a keyword bit and no later one of the first `t` bits has its key. */
  predicate LastNaming(bits: seq<string>, t: nat, j: nat)
    requires j < t <= |bits|
  {
    IsKwarg(bits[j])
    && forall j' :: j < j' < t ==> !(IsKwarg(bits[j']) && KwargKey(bits[j']) == KwargKey(bits[j]))
  }

  /** The keys the first `t` bits name are the first bit's and those the next
      `t - 1` bits name. */
  lemma NamesTail(bits: seq<string>, t: nat, k: string)
    requires 0 < t <= |bits| && IsKwarg(bits[0])
    ensures Names(bits, t, k) <==> k == KwargKey(bits[0]) || Names(bits[1..], t - 1, k)
  {
    if Names(bits[1..], t - 1, k) {
      var j :| 0 <= j < t - 1 && IsKwarg(bits[1..][j]) && KwargKey(bits[1..][j]) == k;
      assert bits[j + 1] == bits[1..][j];
    }
    if Names(bits, t, k) && k != KwargKey(bits[0]) {
      var j :| 0 <= j < t && IsKwarg(bits[j]) && KwargKey(bits[j]) == k;
      assert bits[1..][j - 1] == bits[j];
    }
  }

  /** The keys of `token_kwargs`' dictionary: those given, and those of the bits
      it takes. */
  lemma {:induction false} TokenKwargsKeys(bits: seq<string>, kwargs: map<string, string>)
    ensures var t := Taken(bits, kwargs);
      forall k :: k in TokenKwargs(bits, kwargs).0 <==> k in kwargs || Names(bits, t, k)
    decreases |bits|
  {
    if bits != [] && IsKwarg(bits[0]) {
      var next := kwargs[KwargKey(bits[0]) := KwargValue(bits[0])];
      TokenKwargsKeys(bits[1..], next);
      var t := Taken(bits, kwargs);
      assert Taken(bits[1..], next) == t - 1;
      forall k ensures Names(bits, t, k) <==> k == KwargKey(bits[0]) || Names(bits[1..], t - 1, k) {
        NamesTail(bits, t, k);
      }
    }
  }

  /** A key keeps the value of the last taken bit that names it. */
  lemma {:induction false} TokenKwargsLastValue(bits: seq<string>, kwargs: map<string, string>)
    ensures var t := Taken(bits, kwargs);
      forall j :: 0 <= j < t && LastNaming(bits, t, j) ==>
        KwargKey(bits[j]) in TokenKwargs(bits, kwargs).0
        && TokenKwargs(bits, kwargs).0[KwargKey(bits[j])] == KwargValue(bits[j])
    decreases |bits|
  {
    if bits != [] && IsKwarg(bits[0]) {
      var key := KwargKey(bits[0]);
      var next := kwargs[key := KwargValue(bits[0])];
      TokenKwargsLastValue(bits[1..], next);
      TokenKwargsKeeps(bits[1..], next);
      var t := Taken(bits, kwargs);
      var r := TokenKwargs(bits, kwargs);
      assert Taken(bits[1..], next) == t - 1;
      forall j | 0 <= j < t && LastNaming(bits, t, j)
        ensures KwargKey(bits[j]) in r.0 && r.0[KwargKey(bits[j])] == KwargValue(bits[j])
      {
        if j == 0 {
          forall j' | 0 <= j' < t - 1
            ensures !(IsKwarg(bits[1..][j']) && KwargKey(bits[1..][j']) == key)
          {
            assert bits[1..][j'] == bits[j' + 1];
          }
          assert !Names(bits[1..], t - 1, key);
        } else {
          assert bits[1..][j - 1] == bits[j];
          forall j' | j - 1 < j' < t - 1
            ensures !(IsKwarg(bits[1..][j']) && KwargKey(bits[1..][j']) == KwargKey(bits[1..][j - 1]))
          {
            assert bits[1..][j'] == bits[j' + 1];
          }
          assert LastNaming(bits[1..], t - 1, j - 1);
        }
      }
    }
  }

  /** A key no taken bit names keeps the value it was given. */
  lemma {:induction false} TokenKwargsKeeps(bits: seq<string>, kwargs: map<string, string>)
    ensures var t := Taken(bits, kwargs);
      forall k :: k in kwargs && !Names(bits, t, k) ==>
        k in TokenKwargs(bits, kwargs).0 && TokenKwargs(bits, kwargs).0[k] == kwargs[k]
    decreases |bits|
  {
    if bits != [] && IsKwarg(bits[0]) {
      var key := KwargKey(bits[0]);
      var next := kwargs[key := KwargValue(bits[0])];
      TokenKwargsKeeps(bits[1..], next);
      var t := Taken(bits, kwargs);
      assert Taken(bits[1..], next) == t - 1;
      forall k | k in kwargs && !Names(bits, t, k)
        ensures k in TokenKwargs(bits, kwargs).0 && TokenKwargs(bits, kwargs).0[k] == kwargs[k]
      {
        NamesTail(bits, t, k);
      }
    }
  }

  // ---------------------------------------------------------------------------
  // The option loop and the tag

  /** One round of the `while remaining_bits` loop: `option` was popped, `rest`
      is what follows it; gives the new dictionary and the bits still to read. */
  function ParseOption(tag: string, option: string, rest: seq<string>, options: map<string, OptionValue>)
    : (r: Result<(map<string, OptionValue>, seq<string>), SyntaxError>)
    ensures r.Success? ==> |r.value.1| <= |rest|
    ensures r.Failure? ==> !r.error.MissingTemplateName?
  {
    if option in options then Failure(RepeatedOption(option))
    else if option == "with" then
      var (value, remaining) := TokenKwargs(rest, map[]);
      if value == map[] then Failure(WithoutKeywords(tag))
      else Success((options[option := Keywords(value)], remaining))
    else if option == "only" then Success((options[option := OnlyFlag], rest))
    else Failure(UnknownOption(tag, option))
  }

  /** One round succeeds only on a new `with` or `only`, records it (with at least
      one keyword for `with`) and passes over keyword bits only; it fails on a
      repeated option, on a new `with` not followed by a keyword bit, and on any
      option other than `with` and `only`. */
  lemma ParseOptionFacts(tag: string, option: string, rest: seq<string>, options: map<string, OptionValue>)
    ensures var r := ParseOption(tag, option, rest, options);
      && (r.Success? ==>
        && option !in options && (option == "with" || option == "only")
        && r.value.0.Keys == options.Keys + {option}
        && (forall k | k in options :: r.value.0[k] == options[k])
        && (option == "with" ==> r.value.0[option].Keywords? && r.value.0[option].namemap != map[]))
      && (r.Success? ==>
        && r.value.1 == rest[|rest| - |r.value.1|..]
        && (forall j :: 0 <= j < |rest| - |r.value.1| ==> IsKwarg(rest[j])))
      && (r.Failure? ==>
        && (r.error.RepeatedOption? <==> option in options)
        && (r.error.RepeatedOption? ==> r.error.option == option)
        && (r.error.WithoutKeywords? ==> r.error.tag == tag && option == "with")
        && (r.error.UnknownOption? ==> r.error.tag == tag && r.error.option == option && option != "with" && option != "only"))
      && (option !in options && option == "with" ==> (r.Success? <==> rest != [] && IsKwarg(rest[0])))
      && (r.Success? && option == "with" ==>
            && r.value.0[option] == Keywords(TokenKwargs(rest, map[]).0)
            && r.value.1 == TokenKwargs(rest, map[]).1
            && |r.value.1| < |rest|
            && (r.value.1 != [] ==> !IsKwarg(r.value.1[0])))
      && (option !in options && option == "only" ==> r == Success((options[option := OnlyFlag], rest)))
      && (option !in options && option != "with" && option != "only" ==> r == Failure(UnknownOption(tag, option)))
  {
    TokenKwargsSplit(rest, map[]);
  }

  /** The `while remaining_bits` loop from the dictionary `options` built so far. */
  function ParseOptions(tag: string, remaining: seq<string>, options: map<string, OptionValue>): (r: Result<map<string, OptionValue>, SyntaxError>)
    ensures r.Failure? ==> !r.error.MissingTemplateName?
    decreases |remaining|
  {
    if remaining == [] then Success(options)
    else
      match ParseOption(tag, remaining[0], remaining[1..], options)
      case Failure(e) => Failure(e)
      case Success((next, rest)) => ParseOptions(tag, rest, next)
  }

  /** `path[0] in ('"', "'") and path[-1] == path[0]`. */
  predicate Quoted(path: string)
    requires |path| > 0
  {
    (path[0] == '"' || path[0] == '\'') && path[|path| - 1] == path[0]
  }

  /** `path[1:-1]`, which is empty for a one-character path. */
  function Unquote(path: string): string {
    if |path| >= 2 then path[1..|path| - 1] else ""
  }

  /** The node built from the path and the parsed options. */
  function MakeNode(path: string, options: map<string, OptionValue>): IncludeNode
    requires |path| > 0
  {
    var isolated := "only" in options;
    var namemap := if "with" in options && options["with"].Keywords? then options["with"].namemap else map[];
    if Quoted(path) then IncludeNode(Literal(Unquote(path)), namemap, isolated)
    else IncludeNode(Expression(path), namemap, isolated)
  }

  /** What `cinclude` returns or raises for the bits of a tag. */
  function CincludeSpec(bits: seq<string>): (r: Result<IncludeNode, SyntaxError>)
    requires TagBits(bits)
    ensures |bits| < 2 <==> r == Failure(MissingTemplateName(bits[0]))
  {
    if |bits| < 2 then Failure(MissingTemplateName(bits[0]))
    else match ParseOptions(bits[0], bits[2..], map[])
      case Failure(e) => Failure(e)
      case Success(options) => Success(MakeNode(bits[1], options))
  }

  /** `cinclude`: pops the options off `remaining_bits` one at a time, letting
      `with` take its keyword bits as well. */
  method Cinclude(bits: seq<string>) returns (r: Result<IncludeNode, SyntaxError>)
    requires TagBits(bits)
    ensures r == CincludeSpec(bits)
  {
    if |bits| < 2 {
      return Failure(MissingTemplateName(bits[0]));
    }
    var options: map<string, OptionValue> := map[];
    var remaining := bits[2..];
    while remaining != []
      invariant ParseOptions(bits[0], remaining, options) == ParseOptions(bits[0], bits[2..], map[])
      decreases |remaining|
    {
      var option := remaining[0];
      remaining := remaining[1..];
      if option in options {
        return Failure(RepeatedOption(option));
      }
      var value;
      if option == "with" {
        var (kwargs, rest) := TokenKwargs(remaining, map[]);
        remaining := rest;
        if kwargs == map[] {
          return Failure(WithoutKeywords(bits[0]));
        }
        value := Keywords(kwargs);
      } else if option == "only" {
        value := OnlyFlag;
      } else {
        return Failure(UnknownOption(bits[0], option));
      }
      options := options[option := value];
    }
    r := Success(MakeNode(bits[1], options));
  }

  // ---------------------------------------------------------------------------
  // Properties

  /** The options dictionary holds only `with` (with at least one keyword) and `only`. */
  predicate WellFormedOptions(options: map<string, OptionValue>) {
    && (forall k | k in options :: k == "with" || k == "only")
    && ("with" in options ==> options["with"].Keywords? && options["with"].namemap != map[])
  }

  /** A successful parse keeps the dictionary well formed. */
  lemma {:induction false} ParseOptionsWellFormed(tag: string, remaining: seq<string>, options: map<string, OptionValue>)
    requires WellFormedOptions(options)
    requires ParseOptions(tag, remaining, options).Success?
    ensures WellFormedOptions(ParseOptions(tag, remaining, options).value)
    decreases |remaining|
  {
    if remaining != [] {
      var step := ParseOption(tag, remaining[0], remaining[1..], options);
      ParseOptionFacts(tag, remaining[0], remaining[1..], options);
      var next := step.value.0;
      var rest := step.value.1;
      assert ParseOptions(tag, remaining, options) == ParseOptions(tag, rest, next);
      assert WellFormedOptions(next);
      ParseOptionsWellFormed(tag, rest, next);
    }
  }

  /** A successful parse records the option `x` exactly when it occurs. */
  lemma {:induction false} ParseOptionsRecords(tag: string, remaining: seq<string>, options: map<string, OptionValue>, x: string)
    requires !IsKwarg(x)
    requires ParseOptions(tag, remaining, options).Success?
    ensures x in ParseOptions(tag, remaining, options).value <==> x in options || x in remaining
    decreases |remaining|
  {
    if remaining != [] {
      var step := ParseOption(tag, remaining[0], remaining[1..], options);
      ParseOptionFacts(tag, remaining[0], remaining[1..], options);
      var next := step.value.0;
      var rest := step.value.1;
      assert ParseOptions(tag, remaining, options) == ParseOptions(tag, rest, next);
      assert x in next <==> x in options || x == remaining[0];
      ParseOptionsRecords(tag, rest, next, x);
      MemberAfterStep(remaining, rest, x);
    }
  }

  /** Every bit a successful parse passes over is `with`, `only` or a keyword bit
      taken by `with`. */
  lemma {:induction false} ParseOptionsBits(tag: string, remaining: seq<string>, options: map<string, OptionValue>)
    requires ParseOptions(tag, remaining, options).Success?
    ensures forall x | x in remaining :: x == "with" || x == "only" || IsKwarg(x)
    decreases |remaining|
  {
    if remaining != [] {
      var option := remaining[0];
      var step := ParseOption(tag, option, remaining[1..], options);
      ParseOptionFacts(tag, option, remaining[1..], options);
      var next := step.value.0;
      var rest := step.value.1;
      assert ParseOptions(tag, remaining, options) == ParseOptions(tag, rest, next);
      ParseOptionsBits(tag, rest, next);
      SkippedAreKwargs(remaining, rest);
    }
  }

  /** The bits between the popped option and what remains are keyword bits. */
  lemma SkippedAreKwargs(remaining: seq<string>, rest: seq<string>)
    requires |remaining| > 0 && |rest| <= |remaining| - 1 && rest == remaining[1..][|remaining| - 1 - |rest|..]
    requires forall j :: 0 <= j < |remaining| - 1 - |rest| ==> IsKwarg(remaining[1..][j])
    ensures forall x | x in remaining :: x == remaining[0] || x in rest || IsKwarg(x)
  {
    forall x | x in remaining
      ensures x == remaining[0] || x in rest || IsKwarg(x)
    {
      var i :| 0 <= i < |remaining| && remaining[i] == x;
      var n := |remaining| - 1 - |rest|;
      if i > 0 && i - 1 >= n {
        assert rest[i - 1 - n] == x;
      } else if i > 0 {
        assert remaining[1..][i - 1] == x;
      }
    }
  }

  /** A bit that is not a keyword bit occurs in the bits before a step exactly
      when it is the popped option or occurs in what remains. */
  lemma MemberAfterStep(remaining: seq<string>, rest: seq<string>, x: string)
    requires |remaining| > 0 && |rest| <= |remaining| - 1 && rest == remaining[1..][|remaining| - 1 - |rest|..]
    requires forall j :: 0 <= j < |remaining| - 1 - |rest| ==> IsKwarg(remaining[1..][j])
    requires !IsKwarg(x)
    ensures x in remaining <==> x == remaining[0] || x in rest
  {
    SkippedAreKwargs(remaining, rest);
    if x in rest {
      var j :| 0 <= j < |rest| && rest[j] == x;
      assert remaining[|remaining| - |rest| + j] == x;
    }
  }

  /** Option `o` occurs at two positions of `s`. */
  predicate Repeated(s: seq<string>, o: string) {
    exists i, j :: 0 <= i < j < |s| && s[i] == o && s[j] == o
  }

  /** A failed parse names what is wrong: an unknown bit among the options, a
      `with` without keyword bits, or an option that occurs twice. */
  lemma {:induction false} ParseOptionsFailure(tag: string, remaining: seq<string>, options: map<string, OptionValue>)
    requires forall k | k in options :: k == "with" || k == "only"
    requires ParseOptions(tag, remaining, options).Failure?
    ensures var e := ParseOptions(tag, remaining, options).error;
      && !e.MissingTemplateName?
      && (e.UnknownOption? ==> e.tag == tag && e.option in remaining && e.option != "with" && e.option != "only")
      && (e.WithoutKeywords? ==> e.tag == tag && "with" in remaining)
      && (e.RepeatedOption? ==>
            && (e.option == "with" || e.option == "only")
            && ((e.option in options && e.option in remaining) || Repeated(remaining, e.option)))
    decreases |remaining|
  {
    var option := remaining[0];
    var step := ParseOption(tag, option, remaining[1..], options);
    ParseOptionFacts(tag, option, remaining[1..], options);
    if step.Success? {
      var (next, rest) := step.value;
      ParseOptionsFailure(tag, rest, next);
      var e := ParseOptions(tag, rest, next).error;
      if e.RepeatedOption? {
        RepeatAfterStep(remaining, rest, e.option, e.option in next && e.option in rest, e.option == option);
      }
      assert rest == remaining[|remaining| - |rest|..];
    }
  }

  /** An option repeated after a step, or met again after being recorded by it,
      is repeated in the bits before the step. */
  lemma RepeatAfterStep(remaining: seq<string>, rest: seq<string>, o: string, again: bool, isFirst: bool)
    requires |remaining| > 0 && |rest| < |remaining| && rest == remaining[|remaining| - |rest|..]
    requires isFirst <==> remaining[0] == o
    requires again ==> o in rest
    requires !again ==> Repeated(rest, o)
    ensures (again && isFirst) ==> Repeated(remaining, o)
    ensures !again ==> Repeated(remaining, o)
    ensures o in rest ==> o in remaining
  {
    var n := |remaining| - |rest|;
    assert forall j :: 0 <= j < |rest| ==> rest[j] == remaining[n + j];
    if again && isFirst {
      var j :| 0 <= j < |rest| && rest[j] == o;
      assert remaining[0] == o && remaining[n + j] == o;
    }
    if !again {
      var i, j :| 0 <= i < j < |rest| && rest[i] == o && rest[j] == o;
      assert remaining[n + i] == o && remaining[n + j] == o;
    }
  }

  /** A bit that is not a keyword bit occurs twice before a step exactly when it
      is the popped option and occurs again in what remains, or occurs twice
      there. */
  lemma RepeatedAcrossStep(remaining: seq<string>, rest: seq<string>, o: string)
    requires |remaining| > 0 && |rest| <= |remaining| - 1 && rest == remaining[1..][|remaining| - 1 - |rest|..]
    requires forall j :: 0 <= j < |remaining| - 1 - |rest| ==> IsKwarg(remaining[1..][j])
    requires !IsKwarg(o)
    ensures Repeated(remaining, o) <==> (o == remaining[0] && o in rest) || Repeated(rest, o)
  {
    var n := |remaining| - |rest|;
    assert forall j :: 0 <= j < |rest| ==> rest[j] == remaining[n + j];
    assert forall j :: 0 < j < n ==> remaining[j] == remaining[1..][j - 1];
    if Repeated(remaining, o) {
      var i, j :| 0 <= i < j < |remaining| && remaining[i] == o && remaining[j] == o;
      assert rest[j - n] == o;
      if i > 0 {
        assert rest[i - n] == o;
      }
    }
    if o == remaining[0] && o in rest {
      var j :| 0 <= j < |rest| && rest[j] == o;
      assert remaining[0] == o && remaining[n + j] == o;
    }
    if Repeated(rest, o) {
      var i, j :| 0 <= i < j < |rest| && rest[i] == o && rest[j] == o;
      assert remaining[n + i] == o && remaining[n + j] == o;
    }
  }

  /** A successful parse meets each option once: it never occurs twice, and an
      option recorded before the parse does not occur in it at all. */
  lemma {:induction false} ParseOptionsOnce(tag: string, remaining: seq<string>, options: map<string, OptionValue>, o: string)
    requires !IsKwarg(o)
    requires ParseOptions(tag, remaining, options).Success?
    ensures !Repeated(remaining, o)
    ensures o in options ==> o !in remaining
    decreases |remaining|
  {
    if remaining != [] {
      var step := ParseOption(tag, remaining[0], remaining[1..], options);
      ParseOptionFacts(tag, remaining[0], remaining[1..], options);
      var next := step.value.0;
      var rest := step.value.1;
      assert ParseOptions(tag, remaining, options) == ParseOptions(tag, rest, next);
      ParseOptionsOnce(tag, rest, next, o);
      MemberAfterStep(remaining, rest, o);
      RepeatedAcrossStep(remaining, rest, o);
    }
  }

  /** A tag that names `with` or `only` twice is rejected. */
  lemma RepeatedOptionRejected(bits: seq<string>)
    requires TagBits(bits) && |bits| >= 2
    requires Repeated(bits[2..], "with") || Repeated(bits[2..], "only")
    ensures CincludeSpec(bits).Failure?
  {
    OptionNamesNotKwargs();
    if ParseOptions(bits[0], bits[2..], map[]).Success? {
      ParseOptionsOnce(bits[0], bits[2..], map[], "with");
      ParseOptionsOnce(bits[0], bits[2..], map[], "only");
    }
  }

  /** The option bits a tag may carry: each is `with`, `only` or a keyword bit;
      `with` and `only` occur at most once; `with` is followed by a keyword bit;
      and a keyword bit follows `with` or another keyword bit. */
  predicate OptionRun(s: seq<string>) {
    && (forall i :: 0 <= i < |s| ==> s[i] == "with" || s[i] == "only" || IsKwarg(s[i]))
    && !Repeated(s, "with") && !Repeated(s, "only")
    && (forall i :: 0 <= i < |s| && s[i] == "with" ==> i + 1 < |s| && IsKwarg(s[i + 1]))
    && (forall i :: 0 <= i < |s| && IsKwarg(s[i]) ==> 0 < i && (s[i - 1] == "with" || IsKwarg(s[i - 1])))
  }

  /** The bits after a round, which do not start with a keyword bit, are an option run. */
  lemma OptionRunSuffix(s: seq<string>, n: nat)
    requires OptionRun(s) && 0 < n <= |s|
    requires n < |s| ==> !IsKwarg(s[n])
    ensures OptionRun(s[n..])
  {
    var t := s[n..];
    assert forall i :: 0 <= i < |t| ==> t[i] == s[n + i];
    forall o | o == "with" || o == "only" ensures !Repeated(t, o) {
      forall i, j | 0 <= i < j < |t| ensures !(t[i] == o && t[j] == o) {
        assert t[i] == s[n + i] && t[j] == s[n + j];
      }
    }
  }

  /** A successful parse reads an option run. */
  lemma {:induction false} ParseOptionsRun(tag: string, remaining: seq<string>, options: map<string, OptionValue>)
    requires ParseOptions(tag, remaining, options).Success?
    ensures OptionRun(remaining)
    decreases |remaining|
  {
    OptionNamesNotKwargs();
    ParseOptionsBits(tag, remaining, options);
    ParseOptionsOnce(tag, remaining, options, "with");
    ParseOptionsOnce(tag, remaining, options, "only");
    forall i | 0 <= i < |remaining| ensures remaining[i] == "with" || remaining[i] == "only" || IsKwarg(remaining[i]) {
      assert remaining[i] in remaining;
    }
    if remaining != [] {
      var option := remaining[0];
      var step := ParseOption(tag, option, remaining[1..], options);
      ParseOptionFacts(tag, option, remaining[1..], options);
      var next := step.value.0;
      var rest := step.value.1;
      assert ParseOptions(tag, remaining, options) == ParseOptions(tag, rest, next);
      ParseOptionsRun(tag, rest, next);
      var n := |remaining| - |rest|;
      assert forall j :: 0 <= j < |rest| ==> rest[j] == remaining[n + j];
      forall j | 1 <= j < n ensures IsKwarg(remaining[j]) {
        assert remaining[1..][j - 1] == remaining[j];
      }
      assert option == "only" ==> n == 1;
      assert option == "with" ==> n >= 2;
      forall i | 0 <= i < |remaining| && remaining[i] == "with"
        ensures i + 1 < |remaining| && IsKwarg(remaining[i + 1])
      {
        if i == 0 {
          assert remaining[1..][0] == remaining[1];
        } else {
          assert rest[i - n] == "with";
        }
      }
      forall i | 0 <= i < |remaining| && IsKwarg(remaining[i])
        ensures 0 < i && (remaining[i - 1] == "with" || IsKwarg(remaining[i - 1]))
      {
        if i >= n {
          assert rest[i - n] == remaining[i];
        }
      }
    }
  }

  /** Every option run parses, from a dictionary that records none of its bits. */
  lemma {:induction false} RunParses(tag: string, remaining: seq<string>, options: map<string, OptionValue>)
    requires OptionRun(remaining)
    requires forall o | o in options :: o !in remaining
    ensures ParseOptions(tag, remaining, options).Success?
    decreases |remaining|
  {
    if remaining != [] {
      OptionNamesNotKwargs();
      var option := remaining[0];
      assert option in remaining;
      var step := ParseOption(tag, option, remaining[1..], options);
      ParseOptionFacts(tag, option, remaining[1..], options);
      if option == "with" {
        assert remaining[1..][0] == remaining[1];
      }
      var next := step.value.0;
      var rest := step.value.1;
      assert ParseOptions(tag, remaining, options) == ParseOptions(tag, rest, next);
      var n := |remaining| - |rest|;
      assert rest == remaining[n..];
      OptionRunSuffix(remaining, n);
      RepeatedAcrossStep(remaining, rest, option);
      forall x | x in rest ensures x in remaining {
        var p :| 0 <= p < |rest| && rest[p] == x;
        assert remaining[n + p] == x;
      }
      RunParses(tag, rest, next);
    }
  }

  /** A tag parses exactly when it names a path and its options are an option run. */
  lemma CincludeAcceptsIff(bits: seq<string>)
    requires TagBits(bits)
    ensures CincludeSpec(bits).Success? <==> |bits| >= 2 && OptionRun(bits[2..])
  {
    if |bits| >= 2 {
      if CincludeSpec(bits).Success? {
        ParseOptionsRun(bits[0], bits[2..], map[]);
      }
      if OptionRun(bits[2..]) {
        RunParses(bits[0], bits[2..], map[]);
      }
    }
  }

  /** A successful parse keeps what the dictionary held before it. */
  lemma {:induction false} ParseOptionsKeeps(tag: string, remaining: seq<string>, options: map<string, OptionValue>)
    requires ParseOptions(tag, remaining, options).Success?
    ensures forall k | k in options ::
      k in ParseOptions(tag, remaining, options).value && ParseOptions(tag, remaining, options).value[k] == options[k]
    decreases |remaining|
  {
    if remaining != [] {
      var step := ParseOption(tag, remaining[0], remaining[1..], options);
      ParseOptionFacts(tag, remaining[0], remaining[1..], options);
      assert ParseOptions(tag, remaining, options) == ParseOptions(tag, step.value.1, step.value.0);
      ParseOptionsKeeps(tag, step.value.1, step.value.0);
    }
  }

  /** The `with` entry holds the keywords of the run after the first `with`. */
  lemma {:induction false} ParseOptionsWithValue(tag: string, remaining: seq<string>, options: map<string, OptionValue>, i: nat)
    requires ParseOptions(tag, remaining, options).Success?
    requires i < |remaining| && remaining[i] == "with" && forall j :: 0 <= j < i ==> remaining[j] != "with"
    requires "with" !in options
    ensures "with" in ParseOptions(tag, remaining, options).value
    ensures ParseOptions(tag, remaining, options).value["with"] == Keywords(TokenKwargs(remaining[i + 1..], map[]).0)
    decreases |remaining|
  {
    OptionNamesNotKwargs();
    var option := remaining[0];
    var step := ParseOption(tag, option, remaining[1..], options);
    ParseOptionFacts(tag, option, remaining[1..], options);
    var next := step.value.0;
    var rest := step.value.1;
    assert ParseOptions(tag, remaining, options) == ParseOptions(tag, rest, next);
    if i == 0 {
      ParseOptionsKeeps(tag, rest, next);
    } else {
      // A round before the first `with` reads `only`, which passes over no bits.
      assert rest == remaining[1..];
      assert remaining[i + 1..] == rest[i..];
      ParseOptionsWithValue(tag, rest, next, i - 1);
    }
  }

  /** A successful `cinclude`: `isolated_context` is set exactly when `only` is
      given, the extra context is non-empty exactly when `with` is given, a quoted
      path is a literal name without its quotes and any other path an expression,
      neither option is given twice, and the extra context is the keywords of the
      run after `with`. */
  lemma CincludeSuccess(bits: seq<string>)
    requires TagBits(bits) && CincludeSpec(bits).Success?
    ensures var node := CincludeSpec(bits).value;
      && (node.isolatedContext <==> "only" in bits[2..])
      && (node.extraContext != map[] <==> "with" in bits[2..])
      && (node.template.Literal? <==> Quoted(bits[1]))
      && (node.template.Literal? ==> node.template.name == Unquote(bits[1]))
      && (node.template.Expression? ==> node.template.source == bits[1])
      && (forall x | x in bits[2..] :: x == "with" || x == "only" || IsKwarg(x))
      && !Repeated(bits[2..], "with") && !Repeated(bits[2..], "only")
      && (forall i :: 0 <= i < |bits| - 2 && bits[2..][i] == "with" ==>
            node.extraContext == TokenKwargs(bits[2..][i + 1..], map[]).0)
  {
    ParseOptionsWellFormed(bits[0], bits[2..], map[]);
    ParseOptionsOnce(bits[0], bits[2..], map[], "with");
    ParseOptionsOnce(bits[0], bits[2..], map[], "only");
    forall i | 0 <= i < |bits| - 2 && bits[2..][i] == "with"
      ensures CincludeSpec(bits).value.extraContext == TokenKwargs(bits[2..][i + 1..], map[]).0
    {
      ParseOptionsWithValue(bits[0], bits[2..], map[], i);
    }
    OptionNamesNotKwargs();
    ParseOptionsRecords(bits[0], bits[2..], map[], "only");
    ParseOptionsRecords(bits[0], bits[2..], map[], "with");
    ParseOptionsBits(bits[0], bits[2..], map[]);
  }

  /** A failing `cinclude` with at least a path fails for a reason found among the options. */
  lemma CincludeFailure(bits: seq<string>)
    requires TagBits(bits) && |bits| >= 2 && CincludeSpec(bits).Failure?
    ensures var e := CincludeSpec(bits).error;
      && !e.MissingTemplateName?
      && (e.UnknownOption? ==> e.tag == bits[0] && e.option in bits[2..] && e.option != "with" && e.option != "only")
      && (e.WithoutKeywords? ==> e.tag == bits[0] && "with" in bits[2..])
      && (e.RepeatedOption? ==> (e.option == "with" || e.option == "only") && Repeated(bits[2..], e.option))
  {
    ParseOptionsFailure(bits[0], bits[2..], map[]);
  }

  /** `token_kwargs` on the docstring's `bar="BAZZ!"` keyword bit followed by `only`. */
  lemma TokenKwargsExample()
    ensures TokenKwargs(["bar=\"BAZZ!\"", "only"], map[]) == (map["bar" := "\"BAZZ!\""], ["only"])
  {
    var kw := "bar=\"BAZZ!\"";
    KwargJoin("bar", "\"BAZZ!\"");
    assert "bar" + "=" + "\"BAZZ!\"" == kw;
    OptionNamesNotKwargs();
    assert [kw, "only"][1..] == ["only"];
  }

  /** `only` alone, after whatever came before it. */
  lemma OnlyStepExample(options: map<string, OptionValue>)
    requires "only" !in options
    ensures ParseOptions("cinclude", ["only"], options) == Success(options["only" := OnlyFlag])
  {
    assert ParseOption("cinclude", "only", [], options) == Success((options["only" := OnlyFlag], []));
  }

  /** `with bar="BAZZ!"` takes the keyword bit and leaves `only`. */
  lemma WithStepExample()
    ensures ParseOptions("cinclude", ["with", "bar=\"BAZZ!\"", "only"], map[])
      == ParseOptions("cinclude", ["only"], map["with" := Keywords(map["bar" := "\"BAZZ!\""])])
  {
    var kw := "bar=\"BAZZ!\"";
    TokenKwargsExample();
    assert ["with", kw, "only"][1..] == [kw, "only"];
    assert "bar" in map["bar" := "\"BAZZ!\""];
    assert ParseOption("cinclude", "with", [kw, "only"], map[])
        == Success((map["with" := Keywords(map["bar" := "\"BAZZ!\""])], ["only"]));
  }

  /** The node for the docstring's path with its `bar="BAZZ!"` keyword and `only`. */
  lemma MakeNodeExample()
    ensures MakeNode("\"foo/some_include\"", map["with" := Keywords(map["bar" := "\"BAZZ!\""]), "only" := OnlyFlag])
      == IncludeNode(Literal("foo/some_include"), map["bar" := "\"BAZZ!\""], true)
  {
    assert Quoted("\"foo/some_include\"");
    assert Unquote("\"foo/some_include\"") == "foo/some_include";
  }

  /** The `with … only` form of the docstring, with its `bar="BAZZ!"` keyword. */
  lemma CincludeWithOnlyExample()
    ensures CincludeSpec(["cinclude", "\"foo/some_include\"", "with", "bar=\"BAZZ!\"", "only"])
      == Success(IncludeNode(Literal("foo/some_include"), map["bar" := "\"BAZZ!\""], true))
  {
    var bits := ["cinclude", "\"foo/some_include\"", "with", "bar=\"BAZZ!\"", "only"];
    var withOptions := map["with" := Keywords(map["bar" := "\"BAZZ!\""])];
    var options := map["with" := Keywords(map["bar" := "\"BAZZ!\""]), "only" := OnlyFlag];
    assert bits[2..] == ["with", "bar=\"BAZZ!\"", "only"];
    WithStepExample();
    OnlyStepExample(withOptions);
    assert withOptions["only" := OnlyFlag] == options;
    assert ParseOptions(bits[0], bits[2..], map[]) == Success(options);
    MakeNodeExample();
    assert MakeNode(bits[1], options) == IncludeNode(Literal("foo/some_include"), map["bar" := "\"BAZZ!\""], true);
  }

  /** An unquoted path is an expression. */
  lemma CincludeExpressionExample()
    ensures CincludeSpec(["cinclude", "name", "only"]) == Success(IncludeNode(Expression("name"), map[], true))
  {
    var bits := ["cinclude", "name", "only"];
    var options := map["only" := OnlyFlag];
    assert bits[2..] == ["only"];
    OnlyStepExample(map[]);
    assert map[]["only" := OnlyFlag] == options;
    assert ParseOptions(bits[0], bits[2..], map[]) == Success(options);
    assert !Quoted(bits[1]);
    assert MakeNode(bits[1], options) == IncludeNode(Expression("name"), map[], true);
  }

  /** A tag without a path. */
  lemma MissingTemplateNameExample()
    ensures CincludeSpec(["cinclude"]) == Failure(MissingTemplateName("cinclude"))
  {
    assert |["cinclude"]| < 2;
  }

  /** `only` given twice. */
  lemma RepeatedOptionExample()
    ensures CincludeSpec(["cinclude", "'a'", "only", "only"]) == Failure(RepeatedOption("only"))
  {
    var bits := ["cinclude", "'a'", "only", "only"];
    var options := map["only" := OnlyFlag];
    assert bits[2..] == ["only", "only"];
    assert ["only", "only"][1..] == ["only"];
    assert ParseOption("cinclude", "only", ["only"], map[]) == Success((options, ["only"]));
    assert ParseOption("cinclude", "only", [], options) == Failure(RepeatedOption("only"));
    assert ParseOptions("cinclude", ["only"], options) == Failure(RepeatedOption("only"));
    assert ParseOptions(bits[0], bits[2..], map[]) == Failure(RepeatedOption("only"));
  }

  /** `with` followed by no keyword bit. */
  lemma WithoutKeywordsExample()
    ensures CincludeSpec(["cinclude", "'a'", "with", "only"]) == Failure(WithoutKeywords("cinclude"))
  {
    var bits := ["cinclude", "'a'", "with", "only"];
    OptionNamesNotKwargs();
    assert TokenKwargs(["only"], map[]) == (map[], ["only"]);
    assert bits[2..] == ["with", "only"];
    assert ["with", "only"][1..] == ["only"];
    assert ParseOption("cinclude", "with", ["only"], map[]) == Failure(WithoutKeywords("cinclude"));
    assert ParseOptions(bits[0], bits[2..], map[]) == Failure(WithoutKeywords("cinclude"));
  }

  /** An option that is neither `with` nor `only`. */
  lemma UnknownOptionExample()
    ensures CincludeSpec(["cinclude", "'a'", "bogus"]) == Failure(UnknownOption("cinclude", "bogus"))
  {
    var bits := ["cinclude", "'a'", "bogus"];
    assert bits[2..] == ["bogus"];
    assert "bogus" != "with" && "bogus" != "only";
    assert ParseOption("cinclude", "bogus", [], map[]) == Failure(UnknownOption("cinclude", "bogus"));
    assert ParseOptions(bits[0], bits[2..], map[]) == Failure(UnknownOption("cinclude", "bogus"));
  }
}
