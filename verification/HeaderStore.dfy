/** The header collection as an object (`http_headers`), against the meaning given in `Headers`. */
module HeaderStore {
  import opened Wrappers
  import opened Text
  import opened Headers

  /** The byte-by-byte comparison used by every lookup. */
  method SameName(a: string, b: string) returns (match_: bool)
    ensures match_ == EqualsIgnoreCase(a, b)
  {
    if |a| != |b| { return false; }
    for i := 0 to |b|
      invariant forall k :: 0 <= k < i ==> Lower(a[k]) == Lower(b[k])
    {
      if Lower(a[i]) != Lower(b[i]) { return false; }
    }
    return true;
  }

  lemma TokensDoNotOverlap(v: string, start: nat, end: nat, i: nat, j: nat)
    requires TokenAt(v, start, end) && TokenAt(v, i, j) && start <= i < end
    ensures i == start && j == end
  {
  }

  /** Scans a list value token by token. */
  method ScanForToken(v: string, needle: string) returns (found: bool)
    requires needle != ""
    ensures found == HasToken(v, needle)
  {
    var pos := 0;
    while pos < |v|
      invariant 0 <= pos <= |v|
      invariant pos == 0 || pos == |v| || IsSeparator(v[pos]) || IsSeparator(v[pos - 1])
      invariant forall i, j :: TokenAt(v, i, j) && i < pos ==> !EqualsIgnoreCase(v[i..j], needle)
      decreases |v| - pos
    {
      ghost var before := pos;
      while pos < |v| && IsSeparator(v[pos])
        invariant before <= pos <= |v|
        invariant pos > before ==> IsSeparator(v[pos - 1])
        invariant pos == 0 || pos == |v| || IsSeparator(v[pos]) || IsSeparator(v[pos - 1])
        invariant forall k :: before <= k < pos ==> IsSeparator(v[k])
      {
        pos := pos + 1;
      }
      if pos >= |v| {
        assert forall i, j :: TokenAt(v, i, j) ==> !IsSeparator(v[i]);
        break;
      }
      var start := pos;
      while pos < |v| && !IsSeparator(v[pos])
        invariant start <= pos <= |v|
        invariant forall k :: start <= k < pos ==> !IsSeparator(v[k])
      {
        pos := pos + 1;
      }
      assert TokenAt(v, start, pos);
      var same := SameName(v[start..pos], needle);
      if same { return true; }
      forall i, j | TokenAt(v, i, j) && before <= i < pos ensures i == start && j == pos {
        assert !IsSeparator(v[i]);
        TokensDoNotOverlap(v, start, pos, i, j);
      }
    }
    return false;
  }

  /** The first field of the name is the one that is set. */
  lemma {:induction false} SetFieldAt(fields: seq<Field>, name: string, value: string, i: nat)
    requires i < |fields| && IsNamed(fields[i], name)
    requires forall k :: 0 <= k < i ==> !IsNamed(fields[k], name)
    ensures SetField(fields, name, value) == fields[i := fields[i].(value := value)]
    decreases i
  {
    if i > 0 {
      SetFieldAt(fields[1..], name, value, i - 1);
      assert fields == [fields[0]] + fields[1..];
    }
  }

  lemma {:induction false} SetFieldNew(fields: seq<Field>, name: string, value: string)
    requires forall k :: 0 <= k < |fields| ==> !IsNamed(fields[k], name)
    ensures SetField(fields, name, value) == fields + [Field(name, value)]
  {
    if fields != [] {
      SetFieldNew(fields[1..], name, value);
      assert fields == [fields[0]] + fields[1..];
    }
  }

  class HttpHeaders {
    var fields: seq<Field>

    constructor ()
      ensures fields == []
    {
      fields := [];
    }

    method Add(name: string, value: string)
      modifies this
      ensures fields == old(fields) + [Field(name, value)]
    {
      fields := fields + [Field(name, value)];
    }

    method Set(name: string, value: string)
      modifies this
      ensures fields == SetField(old(fields), name, value)
    {
      for i := 0 to |fields|
        invariant fields == old(fields)
        invariant forall k :: 0 <= k < i ==> !IsNamed(fields[k], name)
      {
        var same := SameName(fields[i].name, name);
        if same {
          SetFieldAt(fields, name, value, i);
          fields := fields[i := fields[i].(value := value)];
          return;
        }
      }
      SetFieldNew(fields, name, value);
      fields := fields + [Field(name, value)];
    }

    method Get(name: string) returns (value: Option<string>)
      ensures value == Lookup(fields, name)
    {
      for i := 0 to |fields|
        invariant Named(fields, name) == Named(fields[i..], name)
      {
        var same := SameName(fields[i].name, name);
        if same { return Some(fields[i].value); }
      }
      return None;
    }

    method ContainsName(name: string) returns (found: bool)
      ensures found == Contains(fields, name)
    {
      var value := Get(name);
      return value.Some?;
    }

    method Remove(name: string)
      modifies this
      ensures fields == Without(old(fields), name)
    {
      var kept := [];
      for i := 0 to |fields|
        invariant fields == old(fields)
        invariant Without(fields, name) == kept + Without(fields[i..], name)
      {
        var same := SameName(fields[i].name, name);
        if !same { kept := kept + [fields[i]]; }
      }
      fields := kept;
    }

    method Clear()
      modifies this
      ensures fields == []
    {
      fields := [];
    }

    method GetContentLength() returns (length: Option<nat>)
      ensures length == ContentLength(fields)
    {
      var value := Get("Content-Length");
      if value.None? { return None; }
      return FromChars(value.value, 10, SIZE_LIMIT);
    }

    method GetIsChunked() returns (chunked: bool)
      ensures chunked == IsChunked(fields)
    {
      var value := Get("Transfer-Encoding");
      if value.None? { return false; }
      chunked := ScanForToken(value.value, "chunked");
    }

    method ConnectionKeepAlive() returns (keep: bool)
      ensures keep == KeepsAlive(fields)
    {
      var value := Get("Connection");
      if value.None? { return true; }
      var close := ScanForToken(value.value, "close");
      return !close;
    }
  }
}
