/**
 * The rename utility: the mapping file is parsed line by line into a
 * dictionary from original name to new name, then every listed file name is
 * looked up to give the copy it should receive.
 *
 * A line is the text Python's file iteration yields, terminator included.
 */
module BatchRename {
  import opened Wrappers

  /** Python's `str.split(',')`: the pieces between commas, at least one. */
  function SplitComma(s: string): (parts: seq<string>)
    ensures |parts| >= 1
    ensures forall k :: 0 <= k < |parts| ==> ',' !in parts[k]
    ensures |parts| == CommaCount(s) + 1
    decreases |s|
  {
    if s == [] then [""]
    else
      var rest := SplitComma(s[1..]);
      if s[0] == ',' then [""] + rest
      else [[s[0]] + rest[0]] + rest[1..]
  }

  function CommaCount(s: string): nat
  {
    if s == [] then 0 else (if s[0] == ',' then 1 else 0) + CommaCount(s[1..])
  }

  /** Python's `','.join(parts)`. */
  function JoinComma(parts: seq<string>): string
    requires |parts| >= 1
  {
    if |parts| == 1 then parts[0] else parts[0] + "," + JoinComma(parts[1..])
  }

  /** Joining the pieces again gives back the line. */
  lemma {:induction false} JoinSplit(s: string)
    ensures JoinComma(SplitComma(s)) == s
    decreases |s|
  {
    if s != [] {
      JoinSplit(s[1..]);
      var rest := SplitComma(s[1..]);
      if s[0] == ',' {
        assert s == "," + s[1..];
      } else if |rest| == 1 {
        assert s == [s[0]] + s[1..];
      } else {
        assert JoinComma(rest) == rest[0] + "," + JoinComma(rest[1..]);
        assert s == [s[0]] + s[1..];
      }
    }
  }

  /** Splitting a join of comma-free pieces gives back the pieces. */
  lemma {:induction false} SplitJoin(parts: seq<string>)
    requires |parts| >= 1
    requires forall k :: 0 <= k < |parts| ==> ',' !in parts[k]
    ensures SplitComma(JoinComma(parts)) == parts
    decreases |parts|, |parts[0]|
  {
    if parts[0] != [] {
      var tail := [parts[0][1..]] + parts[1..];
      SplitJoin(tail);
      assert JoinComma(parts)[1..] == JoinComma(tail) by {
        if |parts| > 1 {
          assert tail[1..] == parts[1..];
        }
      }
      assert parts[0] == [parts[0][0]] + parts[0][1..];
    } else if |parts| > 1 {
      SplitJoin(parts[1..]);
      assert JoinComma(parts) == "," + JoinComma(parts[1..]);
      assert JoinComma(parts)[1..] == JoinComma(parts[1..]);
    }
  }

  /** The characters Python's `str.isspace` accepts. */
  predicate IsSpace(c: char)
  {
    || c == ' '
    || ('\t' <= c <= '\r')
    || ('\U{1C}' <= c <= '\U{1F}')
    || c == '\U{85}' || c == '\U{A0}' || c == '\U{1680}'
    || ('\U{2000}' <= c <= '\U{200A}')
    || c == '\U{2028}' || c == '\U{2029}' || c == '\U{202F}' || c == '\U{205F}' || c == '\U{3000}'
  }

  predicate AllSpace(s: string)
  {
    forall k :: 0 <= k < |s| ==> IsSpace(s[k])
  }

  /** How many whitespace characters `s` starts with. */
  function LeadingSpaces(s: string): (n: nat)
    ensures n <= |s| && AllSpace(s[..n])
    ensures n < |s| ==> !IsSpace(s[n])
  {
    if s != [] && IsSpace(s[0]) then
      var n := 1 + LeadingSpaces(s[1..]);
      assert s[..n] == [s[0]] + s[1..][..n - 1];
      n
    else 0
  }

  /** How many whitespace characters `s` ends with. */
  function TrailingSpaces(s: string): (n: nat)
    ensures n <= |s| && AllSpace(s[|s| - n..])
    ensures n < |s| ==> !IsSpace(s[|s| - n - 1])
  {
    if s != [] && IsSpace(s[|s| - 1]) then
      var n := 1 + TrailingSpaces(s[..|s| - 1]);
      assert s[|s| - n..] == s[..|s| - 1][|s| - n..] + [s[|s| - 1]];
      n
    else 0
  }

  /**
   * Python's `str.strip()`: the line with its leading and trailing whitespace
   * removed; what remains is the slice after the leading whitespace, followed
   * in the input only by whitespace, and it neither starts nor ends with
   * whitespace.
   */
  function Strip(s: string): (r: string)
    ensures r == [] || (!IsSpace(r[0]) && !IsSpace(r[|r| - 1]))
    ensures var lo := LeadingSpaces(s);
      lo + |r| <= |s| && r == s[lo..lo + |r|] && AllSpace(s[lo + |r|..])
  {
    var lo, trail := LeadingSpaces(s), TrailingSpaces(s);
    if lo + trail >= |s| then
      assert s[lo..] == s[|s| - trail..][lo + trail - |s|..];
      []
    else
      s[lo..|s| - trail]
  }

  /** Stripping twice removes nothing more. */
  lemma StripIdempotent(s: string)
    ensures Strip(Strip(s)) == Strip(s)
  {
    var r := Strip(s);
    if r != [] {
      assert LeadingSpaces(r) == 0;
      assert TrailingSpaces(r) == 0;
    }
  }

  /** The index of the first comma of `s`, or `|s|` when it has none. */
  function CommaIndex(s: string): (k: nat)
    ensures k <= |s|
    ensures forall j :: 0 <= j < k ==> s[j] != ','
    ensures k < |s| ==> s[k] == ','
  {
    if s == [] || s[0] == ',' then 0 else 1 + CommaIndex(s[1..])
  }

  /** A line that unpacks into exactly `key, value`: it has exactly one comma. */
  predicate WellFormed(line: string)
  {
    CommaCount(line) == 1
  }

  /** The text before the comma. */
  function Key(line: string): string
    requires WellFormed(line)
  {
    line[..CommaIndex(line)]
  }

  /** The text after the comma, terminator included. */
  function Value(line: string): string
    requires WellFormed(line)
  {
    CommaIndexInRange(line);
    line[CommaIndex(line) + 1..]
  }

  lemma {:induction false} CommaIndexInRange(s: string)
    requires CommaCount(s) >= 1
    ensures CommaIndex(s) < |s|
  {
    if s[0] != ',' {
      CommaIndexInRange(s[1..]);
    }
  }

  /**
   * `line.split(',')` has exactly two fields exactly when the line is well
   * formed, and then they are its key and its value.
   */
  lemma SplitLine(line: string)
    ensures |SplitComma(line)| == 2 <==> WellFormed(line)
    ensures WellFormed(line) ==> SplitComma(line) == [Key(line), Value(line)]
  {
    var parts := SplitComma(line);
    if |parts| == 2 {
      JoinSplit(line);
      assert line == parts[0] + "," + parts[1];
      CommaIndexOfJoin(parts[0], parts[1]);
      assert Key(line) == parts[0];
      assert Value(line) == parts[1];
    }
  }

  /**
   * The line `key,value` written from comma-free text unpacks back into that
   * key, verbatim, and that value.
   */
  lemma LineFields(key: string, value: string)
    requires ',' !in key && ',' !in value
    ensures WellFormed(key + "," + value)
    ensures Key(key + "," + value) == key && Value(key + "," + value) == value
  {
    var line := key + "," + value;
    assert line == JoinComma([key, value]);
    SplitJoin([key, value]);
    SplitLine(line);
  }

  lemma CommaIndexOfJoin(a: string, b: string)
    requires ',' !in a
    ensures CommaIndex(a + "," + b) == |a|
  {
    var s := a + "," + b;
    assert s[|a|] == ',';
    assert forall j :: 0 <= j < |a| ==> s[j] == a[j];
  }

  /** The index of the first line that is not well formed, or `|lines|` if there is none. */
  function FirstMalformed(lines: seq<string>): (k: nat)
    ensures k <= |lines|
    ensures forall i :: 0 <= i < k ==> WellFormed(lines[i])
    ensures k < |lines| ==> !WellFormed(lines[k])
  {
    if lines == [] || !WellFormed(lines[0]) then 0 else 1 + FirstMalformed(lines[1..])
  }

  /** Parsing stopped at the line with this index. */
  datatype ParseError = MalformedLine(index: nat)

  /** No later line of `lines` has the same key as line `i`. */
  predicate LastWithKey(lines: seq<string>, i: nat)
    requires i < |lines| && WellFormed(lines[i])
  {
    forall j :: i < j < |lines| && WellFormed(lines[j]) ==> Key(lines[j]) != Key(lines[i])
  }

  /** The keys of the well-formed lines among the first `n`. */
  function KeysOf(lines: seq<string>, n: nat): (keys: set<string>)
    requires n <= |lines|
    ensures forall i :: 0 <= i < n && WellFormed(lines[i]) ==> Key(lines[i]) in keys
  {
    if n == 0 then {}
    else KeysOf(lines, n - 1) + (if WellFormed(lines[n - 1]) then {Key(lines[n - 1])} else {})
  }

  /** Every key comes from some well-formed line. */
  lemma {:induction false} KeysOfFromLines(lines: seq<string>, n: nat, key: string)
    requires n <= |lines| && key in KeysOf(lines, n)
    ensures exists i :: 0 <= i < n && WellFormed(lines[i]) && Key(lines[i]) == key
  {
    if key !in KeysOf(lines, n - 1) {
      assert WellFormed(lines[n - 1]) && Key(lines[n - 1]) == key;
    } else {
      KeysOfFromLines(lines, n - 1, key);
    }
  }

  /** A line that is last with its key in a longer prefix is also last in the shorter one. */
  lemma LastStep(lines: seq<string>, n: nat, i: nat)
    requires i < n < |lines| && WellFormed(lines[i]) && WellFormed(lines[n])
    requires LastWithKey(lines[..n + 1], i)
    ensures LastWithKey(lines[..n], i)
    ensures Key(lines[i]) != Key(lines[n])
  {
    assert lines[..n + 1][n] == lines[n];
    forall j | i < j < n && WellFormed(lines[..n][j])
      ensures Key(lines[..n][j]) != Key(lines[..n][i])
    {
      assert lines[..n][j] == lines[..n + 1][j];
    }
  }

  /** `m` holds, for every line of `lines[..n]` last with its key, that line's stripped value. */
  ghost predicate HoldsLastValues(lines: seq<string>, n: nat, m: map<string, string>)
    requires n <= |lines|
  {
    forall i :: 0 <= i < n && WellFormed(lines[i]) && LastWithKey(lines[..n], i) ==>
      Key(lines[i]) in m && m[Key(lines[i])] == Strip(Value(lines[i]))
  }

  /** What the parse loop has built after its first `n` lines. */
  ghost predicate ParsedPrefix(lines: seq<string>, n: nat, m: map<string, string>)
    requires n <= |lines|
  {
    && FirstMalformed(lines) >= n
    && m.Keys == KeysOf(lines, n)
    && HoldsLastValues(lines, n, m)
  }

  /** Storing line `n` extends what was built from the first `n` lines to the first `n + 1`. */
  lemma ParsedPrefixStep(lines: seq<string>, n: nat, m: map<string, string>)
    requires n < |lines| && WellFormed(lines[n])
    requires ParsedPrefix(lines, n, m)
    ensures ParsedPrefix(lines, n + 1, m[Key(lines[n]) := Strip(Value(lines[n]))])
  {
    var m' := m[Key(lines[n]) := Strip(Value(lines[n]))];
    forall i | 0 <= i < n + 1 && WellFormed(lines[i]) && LastWithKey(lines[..n + 1], i)
      ensures Key(lines[i]) in m' && m'[Key(lines[i])] == Strip(Value(lines[i]))
    {
      if i < n {
        LastStep(lines, n, i);
      }
    }
    assert HoldsLastValues(lines, n + 1, m');
    FirstMalformedAtLeast(lines, n + 1);
  }

  lemma ParsedPrefixStart(lines: seq<string>)
    ensures ParsedPrefix(lines, 0, map[])
  {
    assert HoldsLastValues(lines, 0, map[]);
  }

  lemma FirstMalformedAtLeast(lines: seq<string>, n: nat)
    requires n <= |lines|
    requires forall i :: 0 <= i < n ==> WellFormed(lines[i])
    ensures FirstMalformed(lines) >= n
  {
  }

  /**
   * `get_mappings`: each line `key,value` sets `mapping[key]` to the stripped
   * value, a later line overriding an earlier one with the same key; the
   * first line that does not split into exactly two fields aborts the parse.
   */
  method GetMappings(lines: seq<string>) returns (r: Result<map<string, string>, ParseError>)
    ensures r.Err? <==> FirstMalformed(lines) < |lines|
    ensures r.Err? ==> r.error.index == FirstMalformed(lines)
    ensures r.Ok? ==> r.value.Keys == KeysOf(lines, |lines|)
    ensures r.Ok? ==> forall i :: 0 <= i < |lines| && WellFormed(lines[i]) && LastWithKey(lines, i) ==>
      r.value[Key(lines[i])] == Strip(Value(lines[i]))
  {
    var mapping := map[];
    ParsedPrefixStart(lines);
    for n := 0 to |lines|
      invariant ParsedPrefix(lines, n, mapping)
    {
      var fields := SplitComma(lines[n]);
      SplitLine(lines[n]);
      if |fields| != 2 {
        return Err(MalformedLine(n));
      }
      var key, value := fields[0], fields[1];
      assert key == Key(lines[n]) && value == Value(lines[n]);
      ParsedPrefixStep(lines, n, mapping);
      mapping := mapping[key := Strip(value)];
    }
    assert lines[..|lines|] == lines;
    r := Ok(mapping);
  }

  /** One `shutil.copyfile` from the input folder to the output folder. */
  datatype Copy = Copy(source: string, destination: string)

  /**
   * The copy loop: each listed name, in order, is copied under its mapped
   * name; the first name with no mapping raises, so the copies made are
   * exactly those of the names before it.
   */
  method PlanCopies(names: seq<string>, mapping: map<string, string>)
    returns (copies: seq<Copy>, missing: Option<string>)
    ensures |copies| <= |names|
    ensures forall k :: 0 <= k < |copies| ==>
      names[k] in mapping && copies[k] == Copy(names[k], mapping[names[k]])
    ensures missing.None? <==> forall k :: 0 <= k < |names| ==> names[k] in mapping
    ensures missing.None? ==> |copies| == |names|
    ensures missing.Some? ==> (|copies| < |names| && names[|copies|] !in mapping
                               && missing.value == names[|copies|])
  {
    copies := [];
    for k := 0 to |names|
      invariant |copies| == k
      invariant forall m :: 0 <= m < k ==>
        names[m] in mapping && copies[m] == Copy(names[m], mapping[names[m]])
    {
      if names[k] !in mapping {
        return copies, Some(names[k]);
      }
      copies := copies + [Copy(names[k], mapping[names[k]])];
    }
    missing := None;
  }

  datatype RenameError = BadMappingFile(line: nat) | Unmapped(name: string)

  /**
   * The rename driver: parse the mapping file, then copy. A malformed mapping
   * file fails before any file is copied; a well-formed one copies the names
   * that are keys of the file, in order, up to the first name that is not.
   */
  method RenameBatch(lines: seq<string>, names: seq<string>)
    returns (copies: seq<Copy>, err: Option<RenameError>)
    ensures FirstMalformed(lines) < |lines| ==>
      copies == [] && err == Some(BadMappingFile(FirstMalformed(lines)))
    ensures |copies| <= |names|
    ensures forall k :: 0 <= k < |copies| ==> copies[k].source == names[k]
    ensures err.None? ==> |copies| == |names|
    ensures err.Some? && err.value.Unmapped? ==> |copies| < |names| && err.value.name == names[|copies|]
    ensures FirstMalformed(lines) == |lines| ==>
      && (err.Some? ==> err.value.Unmapped? && names[|copies|] !in KeysOf(lines, |lines|))
      && (forall k :: 0 <= k < |copies| ==> names[k] in KeysOf(lines, |lines|))
      && (err.None? <==> forall k :: 0 <= k < |names| ==> names[k] in KeysOf(lines, |lines|))
  {
    var parsed := GetMappings(lines);
    if parsed.Err? {
      return [], Some(BadMappingFile(parsed.error.index));
    }
    var missing;
    copies, missing := PlanCopies(names, parsed.value);
    err := if missing.Some? then Some(Unmapped(missing.value)) else None;
  }
}
