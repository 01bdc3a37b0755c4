/** The loops of config.c, against the definitions of the configuration file. */
module ConfigReader {
  import opened Options
  import opened TextCuts
  import opened ConfigText
  import opened ConfigFile

  lemma RemoveNext(x: string, i: nat)
    requires i < |x|
    ensures RemoveSpaces(x[..i + 1]) == RemoveSpaces(x[..i]) + if IsSpace(x[i]) then [] else [x[i]]
  {
    assert x[..i + 1][..i] == x[..i];
  }

  /** clean_special_handshake_line, on the part of the line before a comment. */
  method CleanSpecialLine(s: string) returns (line: string)
    ensures line == CleanSpecial(s)
  {
    hide RemoveSpaces;
    var end := |s|;
    while end > 0 && IsSpace(s[end - 1])
      invariant 0 <= end <= |s| && forall k :: end <= k < |s| ==> IsSpace(s[k])
    {
      end := end - 1;
    }
    assert end == TrimSpaces(s);
    line := CleanKeyAndValue(s[..end]);
  }

  /** The second pass. */
  method CleanKeyAndValue(x: string) returns (line: string)
    ensures var equals := Find(x, 0, |x|, '=');
            line == if equals == |x| then RemoveSpaces(x)
                    else RemoveSpaces(x[..equals]) + "=" + x[SkipSpaces(x, equals + 1)..]
  {
    ghost var equals := Find(x, 0, |x|, '=');
    ghost var value := if equals < |x| then SkipSpaces(x, equals + 1) else |x|;
    var foundEquals, foundValue := false, false;
    line := [];
    Nothing(x);
    PlaceFacts(x, equals, value);
    hide RemoveSpaces, Find, SkipSpaces;
    for i := 0 to |x|
      invariant foundEquals <==> equals < i
      invariant foundValue <==> value < i
      invariant !foundEquals ==> line == RemoveSpaces(x[..i])
      invariant foundEquals && !foundValue ==> line == RemoveSpaces(x[..equals]) + "="
      invariant foundValue ==> line == RemoveSpaces(x[..equals]) + "=" + x[value..i]
    {
      assert value < i ==> x[value..i + 1] == x[value..i] + [x[i]];
      if !foundEquals {
        if x[i] == '=' {
          line := line + [x[i]];
          foundEquals := true;
        } else {
          RemoveNext(x, i);
          if !IsSpace(x[i]) {
            line := line + [x[i]];
          }
        }
      } else if !foundValue {
        if !IsSpace(x[i]) {
          line := line + [x[i]];
          foundValue := true;
        }
      } else {
        line := line + [x[i]];
      }
    }
    assert x[..|x|] == x && x[value..|x|] == x[value..];
  }

  lemma PlaceFacts(x: string, equals: nat, value: nat)
    requires equals == Find(x, 0, |x|, '=') && value == if equals < |x| then SkipSpaces(x, equals + 1) else |x|
    ensures forall k :: 0 <= k < |x| && k <= equals ==> (x[k] == '=' <==> k == equals)
    ensures equals <= value <= |x| && (equals < |x| ==> equals < value)
    ensures forall k :: equals < k < |x| && k <= value ==> (IsSpace(x[k]) <==> k < value)
  {
  }

  lemma Nothing(x: string)
    ensures RemoveSpaces(x[..0]) == []
  {
  }

  /** The first half of config_read_line. */
  method CleanLine(input: string) returns (line: string)
    ensures line == Clean(input)
  {
    hide RemoveSpaces, CleanSpecial, DeviceKey, CaselessSame;
    var text := input[..Find(input, 0, |input|, '#')];
    var special := false;
    for i := 14 to 19
      invariant special <==> |input| >= 2 && exists k: nat :: 14 <= k < i && CaselessSame(input[..2], DeviceKey(k))
    {
      if |input| >= 2 && CaselessSame(input[..2], DeviceKey(i)) {
        special := true;
      }
    }
    if special {
      line := CleanSpecialLine(text);
      return;
    }
    line := [];
    Nothing(text);
    for i := 0 to |text|
      invariant line == RemoveSpaces(text[..i])
    {
      RemoveNext(text, i);
      if !IsSpace(text[i]) {
        line := line + [text[i]];
      }
    }
    assert text[..|text|] == text;
  }

  function Prepend(ips: seq<AllowedIp>, rest: Option<seq<AllowedIp>>): Option<seq<AllowedIp>> {
    if rest.None? then None else Some(ips + rest.value)
  }

  lemma PrependTwice(ips: seq<AllowedIp>, ip: AllowedIp, rest: Option<seq<AllowedIp>>)
    ensures Prepend(ips, Prepend([ip], rest)) == Prepend(ips + [ip], rest)
  {
    if rest.Some? {
      assert ips + ([ip] + rest.value) == ips + [ip] + rest.value;
    }
  }

  lemma NextEntry(value: string, names: Names)
    ensures var comma := Find(value, 0, |value|, ',');
            var first := ParseAllowedIp(value[..comma], names);
            ParseAllowedIps(value, names)
            == if first.None? then None
               else if comma == |value| then Some([first.value])
               else Prepend([first.value], ParseAllowedIps(value[comma + 1..], names))
  {
    hide ParseAllowedIp;
  }

  /** The strsep loop of parse_allowedips. */
  method ReadAllowedIps(value: string, names: Names) returns (r: Option<seq<AllowedIp>>)
    ensures r == ParseAllowedIps(value, names)
  {
    hide ParseAllowedIp, ParseAllowedIps, Prepend;
    var sep, ips: seq<AllowedIp>, more := value, [], true;
    NothingRead(value, names);
    while more
      invariant ParseAllowedIps(value, names) == if more then Prepend(ips, ParseAllowedIps(sep, names)) else Some(ips)
      decreases |sep|, more
    {
      NextEntry(sep, names);
      var comma := Find(sep, 0, |sep|, ',');
      var entry := ParseAllowedIp(sep[..comma], names);
      if entry.None? {
        PrependNone(ips);
        return None;
      }
      if comma == |sep| {
        PrependSome(ips, [entry.value]);
        more := false;
      } else {
        sep := sep[comma + 1..];
        PrependTwice(ips, entry.value, ParseAllowedIps(sep, names));
      }
      ips := ips + [entry.value];
    }
    return Some(ips);
  }

  lemma NothingRead(value: string, names: Names)
    ensures Prepend([], ParseAllowedIps(value, names)) == ParseAllowedIps(value, names)
  {
    hide ParseAllowedIps;
    var rest := ParseAllowedIps(value, names);
    if rest.Some? {
      assert [] + rest.value == rest.value;
    }
  }

  lemma PrependNone(ips: seq<AllowedIp>)
    ensures Prepend(ips, None) == None
  {
  }

  lemma PrependSome(a: seq<AllowedIp>, b: seq<AllowedIp>)
    ensures Prepend(a, Some(b)) == Some(a + b)
  {
  }

  /** struct config_ctx and the calls that fill it. */
  class Reader {
    var context: Context

    /** config_read_init. */
    constructor (append: bool)
      ensures context == Start(append) && Valid(context)
    {
      context := Start(append);
    }

    /** config_read_line. */
    method Line(input: string, names: Names) returns (ok: bool)
      requires Valid(context)
      modifies this
      ensures Valid(context)
      ensures ok <==> ReadLine(old(context), input, names).Some?
      ensures context == if ok then ReadLine(old(context), input, names).value else old(context)
    {
      hide Clean, ProcessLine, Valid;
      var line := CleanLine(input);
      if line == [] {
        return true;
      }
      var next := ProcessLine(context, line, names);
      if next.None? {
        return false;
      }
      context := next.value;
      return true;
    }
  }

  /** Reading a file, as setconf does: it stops at the first bad line. */
  method ReadFile(lines: seq<string>, append: bool, names: Names) returns (r: Option<Device>)
    ensures var c := ReadLines(Start(append), lines, names);
            r == if c.None? then None else Finish(c.value)
  {
    hide ReadLine, Valid, Start, Finish;
    var reader := new Reader(append);
    var i := 0;
    assert lines[0..] == lines;
    while i < |lines|
      invariant 0 <= i <= |lines| && fresh(reader) && Valid(reader.context)
      invariant ReadLines(reader.context, lines[i..], names) == ReadLines(Start(append), lines, names)
    {
      assert lines[i..][0] == lines[i] && lines[i..][1..] == lines[i + 1..];
      var ok := reader.Line(lines[i] + "\n", names);
      if !ok {
        return None;
      }
      i := i + 1;
    }
    assert lines[i..] == [];
    return Finish(reader.context);
  }
}
