/** The credential-file parser of `cyschoolhousesuite.py` (`extract_key`).
    The file read is left to the caller: the key file's text is the input. */
module Suite {
  import opened Base
  import opened Strings

  /** `item.split(":")[1]`: the text between the first and the second colon;
      an entry with no colon has no second part and raises IndexError. */
  function EntryValue(item: string): (r: Result<string>)
    ensures r.Err? <==> ':' !in item
    ensures r.Err? ==> r.exc == IndexError
    ensures r.Ok? ==> ':' !in r.value
  {
    var parts := Split(item, ':');
    SplitPartsLackSeparator(item, ':');
    JoinSplit(item, ':');
    if |parts| < 2 then
      assert parts == [parts[0]];
      assert Join(parts, [':']) == parts[0];
      Err(IndexError)
    else
      assert Join(parts, [':']) == parts[0] + [':'] + Join(parts[1..], [':']);
      assert item[|parts[0]|] == ':';
      Ok(parts[1])
  }

  /** The list comprehension over the '/'-separated entries: the first entry
      without a colon raises. */
  function EntryValues(items: seq<string>): (r: Result<seq<string>>)
    ensures r.Err? <==> exists k :: 0 <= k < |items| && ':' !in items[k]
    ensures r.Err? ==> r.exc == IndexError
    ensures r.Ok? ==> |r.value| == |items| && forall k :: 0 <= k < |items| ==> EntryValue(items[k]) == Ok(r.value[k])
  {
    if |items| == 0 then Ok([])
    else
      match EntryValue(items[0])
      case Err(e) => Err(e)
      case Ok(v) =>
        match EntryValues(items[1..])
        case Err(e) =>
          var k :| 0 <= k < |items[1..]| && ':' !in items[1..][k];
          assert ':' !in items[k + 1];
          Err(e)
        case Ok(vs) =>
          assert forall k :: 0 <= k < |items| && ':' !in items[k] ==> k == 0 || ':' !in items[1..][k - 1];
          Ok([v] + vs)
  }

  /** `extract_key` on the key file's text: exactly three entries unpack into
      description, user and password, and the last two are returned. It fails
      with IndexError when some entry has no colon, else with ValueError when
      there are not exactly three entries. */
  function ExtractKey(keys: string): (r: Result<(string, string)>)
    ensures var items := Split(keys, '/');
      (r == Err(IndexError) <==> exists k :: 0 <= k < |items| && ':' !in items[k]) &&
      (r == Err(ValueError) <==> (forall k :: 0 <= k < |items| ==> ':' in items[k]) && |items| != 3) &&
      (r.Ok? ==> |items| == 3 && EntryValue(items[1]) == Ok(r.value.0) && EntryValue(items[2]) == Ok(r.value.1))
  {
    match EntryValues(Split(keys, '/'))
    case Err(e) => Err(e)
    case Ok(entries) =>
      if |entries| != 3 then Err(ValueError) else Ok((entries[1], entries[2]))
  }

  /** One line of a key file: a label, a colon and the value. */
  function KeyLine(tag: string, value: string): string
  {
    tag + ":" + value
  }

  lemma KeyLineValue(tag: string, value: string)
    requires ':' !in tag && ':' !in value
    ensures EntryValue(KeyLine(tag, value)) == Ok(value)
  {
    assert Join([tag, value], [':']) == KeyLine(tag, value);
    SplitJoin([tag, value], ':');
  }

  /** Writing a key file as `desc:…/user:…/pwd:…` and reading it back gives the
      user and password, when no label or value holds '/' or ':'. */
  lemma ExtractKeyRoundTrip(d: string, u: string, p: string, desc: string, user: string, pwd: string)
    requires ':' !in d && ':' !in u && ':' !in p && ':' !in desc && ':' !in user && ':' !in pwd
    requires '/' !in d && '/' !in u && '/' !in p && '/' !in desc && '/' !in user && '/' !in pwd
    ensures ExtractKey(Join([KeyLine(d, desc), KeyLine(u, user), KeyLine(p, pwd)], "/")) == Ok((user, pwd))
  {
    var lines := [KeyLine(d, desc), KeyLine(u, user), KeyLine(p, pwd)];
    forall k | 0 <= k < 3
      ensures '/' !in lines[k]
    {
    }
    SplitJoin(lines, '/');
    KeyLineValue(d, desc);
    KeyLineValue(u, user);
    KeyLineValue(p, pwd);
    var vs := EntryValues(lines);
    assert vs.Ok? && |vs.value| == 3;
    assert vs.value[1] == user && vs.value[2] == pwd;
  }
}
