/** The IEEE Std 1284 Device ID string a printer reports: a length-prefixed
    buffer holding `KEY:v1,v2,...;KEY2:...;`, parsed leniently into a map
    from key to value list, and the lookups the driver performs on it. */
module DeviceId {
  import opened Wrappers
  import Bits

  /** Size of the buffer the LPIOC_GET_DEVICE_ID request fills. */
  const BufferSize: int := 1024

  /** The outcome of reading the ID from a filled buffer: the bytes, and
      whether the declared length did not fit, which the driver reports as
      the error "the device ID string got trimmed". */
  datatype IdRead = IdRead(data: seq<bv8>, trimmed: bool)

  /** Length handling of lpiocGetDeviceID: a 2-byte big-endian length n,
      then n bytes; if 2+n exceeds the buffer, all 1022 trailing bytes. */
  function ReadDeviceId(buf: seq<bv8>): (r: IdRead)
    requires |buf| == BufferSize
    ensures var n := buf[0] as int * 256 + buf[1] as int;
      && (r.trimmed <==> 2 + n > BufferSize)
      && |r.data| == (if r.trimmed then BufferSize - 2 else n)
      && r.data == buf[2 .. 2 + |r.data|]
  {
    var length := buf[0] as int * 256 + buf[1] as int;
    if 2 + length > BufferSize then IdRead(buf[2..], true)
    else IdRead(buf[2 .. 2 + length], false)
  }

  /** The regular expression class \s: tab, newline, form feed, carriage
      return and space. */
  predicate IsRegexSpace(c: char)
  {
    c == '\t' || c == '\n' || c == '\U{000C}' || c == '\r' || c == ' '
  }

  /** The cut set "\t\n\v\f\r " the values are trimmed with. */
  predicate IsCutSpace(c: char)
  {
    IsRegexSpace(c) || c == '\U{000B}'
  }

  /** The character classes the parser strips or searches for. */
  datatype CharClass = RegexSpace | CutSpace | Colon | ColonOrComma

  predicate InClass(c: char, k: CharClass)
  {
    match k
    case RegexSpace => IsRegexSpace(c)
    case CutSpace => IsCutSpace(c)
    case Colon => c == ':'
    case ColonOrComma => c == ':' || c == ','
  }

  /** The number of leading characters satisfying `cut`. */
  function Leading(s: string, cut: CharClass): (n: nat)
    ensures n <= |s|
    ensures forall i :: 0 <= i < n ==> InClass(s[i], cut)
    ensures n < |s| ==> !InClass(s[n], cut)
    decreases |s|
  {
    if |s| > 0 && InClass(s[0], cut) then
      var m := Leading(s[1..], cut);
      assert forall i :: 0 < i <= m ==> s[i] == s[1..][i - 1];
      1 + m
    else 0
  }

  /** The number of trailing characters satisfying `cut`. */
  function Trailing(s: string, cut: CharClass): (n: nat)
    ensures n <= |s|
    ensures forall i :: |s| - n <= i < |s| ==> InClass(s[i], cut)
    ensures n < |s| ==> !InClass(s[|s| - n - 1], cut)
    decreases |s|
  {
    if |s| > 0 && InClass(s[|s| - 1], cut) then
      var m := Trailing(s[..|s| - 1], cut);
      assert forall i :: |s| - 1 - m <= i < |s| - 1 ==> s[i] == s[..|s| - 1][i];
      1 + m
    else 0
  }

  /** Drops leading characters satisfying `cut`. */
  function TrimLeft(s: string, cut: CharClass): (r: string)
    ensures |r| <= |s| && r == s[|s| - |r|..]
    ensures forall i :: 0 <= i < |s| - |r| ==> InClass(s[i], cut)
    ensures |r| > 0 ==> !InClass(r[0], cut)
  {
    s[Leading(s, cut)..]
  }

  /** Drops trailing characters satisfying `cut`. */
  function TrimRight(s: string, cut: CharClass): (r: string)
    ensures |r| <= |s| && r == s[..|r|]
    ensures forall i :: |r| <= i < |s| ==> InClass(s[i], cut)
    ensures |r| > 0 ==> !InClass(r[|r| - 1], cut)
  {
    s[..|s| - Trailing(s, cut)]
  }

  /** strings.Trim: both ends. The result is the part of `s` between the
      leading and the trailing cut characters. */
  function Trim(s: string, cut: CharClass): (r: string)
    ensures |r| > 0 ==> !InClass(r[0], cut) && !InClass(r[|r| - 1], cut)
    ensures exists i :: Surrounds(s, r, i, cut)
  {
    var i := Leading(s, cut);
    var r := s[i .. |s| - Trailing(s[i..], cut)];
    TrimBothEnds(s, cut, i, |s| - Trailing(s[i..], cut));
    r
  }

  /** Between the leading and the trailing cut characters lies a piece of
      `s` that starts and ends with a kept character. */
  lemma TrimBothEnds(s: string, cut: CharClass, i: nat, j: nat)
    requires i <= j <= |s|
    requires forall k :: 0 <= k < i ==> InClass(s[k], cut)
    requires i < |s| ==> !InClass(s[i], cut)
    requires forall k :: j - i <= k < |s| - i ==> InClass(s[i..][k], cut)
    requires i < j ==> !InClass(s[i..][j - i - 1], cut)
    ensures i < j ==> !InClass(s[i], cut) && !InClass(s[j - 1], cut)
    ensures Surrounds(s, s[i..j], i, cut)
  {
    forall k | j <= k < |s| ensures InClass(s[k], cut) {
      assert s[k] == s[i..][k - i];
    }
    if i < j {
      assert s[j - 1] == s[i..][j - i - 1];
    }
  }

  /** `r` sits at offset `i` of `s` with only cut characters around it. */
  predicate Surrounds(s: string, r: string, i: int, cut: CharClass)
  {
    && 0 <= i <= |s| - |r| && r == s[i .. i + |r|]
    && (forall j :: 0 <= j < i ==> InClass(s[j], cut))
    && (forall j :: i + |r| <= j < |s| ==> InClass(s[j], cut))
  }

  function IndexOf(s: string, c: char): (i: int)
    ensures -1 <= i < |s|
    ensures i >= 0 ==> s[i] == c && c !in s[..i]
    ensures i < 0 ==> c !in s
  {
    if |s| == 0 then -1
    else if s[0] == c then 0
    else var j := IndexOf(s[1..], c);
      assert j >= 0 ==> s[..j + 1] == [s[0]] + s[1..][..j];
      if j < 0 then -1 else j + 1
  }

  /** strings.Split on one separator character: n separators give n+1 pieces. */
  function Split(s: string, sep: char): (parts: seq<string>)
    ensures |parts| >= 1
    ensures forall i :: 0 <= i < |parts| ==> sep !in parts[i]
    decreases |s|
  {
    var i := IndexOf(s, sep);
    if i < 0 then [s]
    else
      var head, rest := s[..i], Split(s[i + 1..], sep);
      PiecesFree(head, rest, sep);
      [head] + rest
  }

  lemma PiecesFree(head: string, rest: seq<string>, sep: char)
    requires sep !in head
    requires forall k :: 0 <= k < |rest| ==> sep !in rest[k]
    ensures forall k :: 0 <= k < |[head] + rest| ==> sep !in ([head] + rest)[k]
  {
  }

  function Join(parts: seq<string>, sep: char): string
    requires |parts| >= 1
  {
    if |parts| == 1 then parts[0] else parts[0] + [sep] + Join(parts[1..], sep)
  }

  /** Splitting loses nothing: joining the pieces restores the string. */
  lemma {:induction false} JoinSplit(s: string, sep: char)
    ensures Join(Split(s, sep), sep) == s
    decreases |s|
  {
    var i := IndexOf(s, sep);
    if i >= 0 {
      var rest := s[i + 1..];
      SplitAt(s, sep, i);
      JoinSplit(rest, sep);
      JoinFront(s[..i], Split(rest, sep), sep);
      Rejoin(s, i, sep);
    }
  }

  lemma SplitAt(s: string, sep: char, i: int)
    requires i == IndexOf(s, sep) && i >= 0
    ensures Split(s, sep) == [s[..i]] + Split(s[i + 1..], sep)
  {
  }

  lemma Rejoin(s: string, i: nat, sep: char)
    requires i < |s| && s[i] == sep
    ensures s[..i] + [sep] + s[i + 1..] == s
  {
    assert s == s[..i] + s[i..] && s[i..] == [sep] + s[i + 1..];
  }

  lemma JoinFront(a: string, parts: seq<string>, sep: char)
    requires |parts| >= 1
    ensures Join([a] + parts, sep) == a + [sep] + Join(parts, sep)
  {
    assert ([a] + parts)[1..] == parts;
  }

  datatype Entry = Entry(key: string, values: seq<string>)


  /** The index of the last character satisfying `p`, or -1. */
  function LastWhere(s: string, p: CharClass): (i: int)
    ensures -1 <= i < |s|
    ensures i >= 0 ==> InClass(s[i], p)
    ensures forall j :: i < j < |s| ==> !InClass(s[j], p)
    decreases |s|
  {
    if |s| == 0 then -1
    else if InClass(s[|s| - 1], p) then |s| - 1
    else LastWhere(s[..|s| - 1], p)
  }

  /** What the Device ID regular expression captures inside one
      ';'-delimited segment. Its value group admits no ':', so a match
      uses the segment's last ':'; its key group admits neither ':' nor
      ',', so the leftmost match starts right after the last of those
      before that colon. The key is stripped of \s on both sides, except
      that an all-blank key region keeps its final blank (the key group
      needs one character); the value is stripped of leading \s, split on
      ',', and each piece trimmed with the cut set. */
  function ParseSegment(seg: string): (e: Option<Entry>)
    ensures e.Some? ==> |e.value.key| > 0 && NoSeparator(e.value.key)
    ensures e.Some? ==> |e.value.values| >= 1
    ensures e.Some? ==> forall i :: 0 <= i < |e.value.values| ==> Trimmed(e.value.values[i], CutSpace)
    ensures ':' !in seg ==> e.None?
  {
    match KeyRegion(seg)
    case None => None
    case Some(r) => Some(Entry(KeyOf(seg[r.start..r.colon]), ValuesOf(seg[r.colon + 1..])))
  }

  /** Where the key region of a segment lies: from `start` up to the colon
      at `colon`. */
  datatype Region = Region(start: nat, colon: nat)

  /** The key region of a segment: it ends at the last ':', and starts
      right after the last ':' or ',' before that; none if it is empty. */
  function KeyRegion(seg: string): (r: Option<Region>)
    ensures r.Some? ==> r.value.start < r.value.colon < |seg| && seg[r.value.colon] == ':'
    ensures r.Some? ==> NoSeparator(seg[r.value.start..r.value.colon])
    ensures r.Some? ==> ':' !in seg[r.value.colon + 1..]
    ensures ':' !in seg ==> r.None?
  {
    var colon := LastWhere(seg, Colon);
    if colon < 0 then None
    else
      var start := LastWhere(seg[..colon], ColonOrComma) + 1;
      if start == colon then None
      else
        var region := seg[start..colon];
        assert NoSeparator(region) by {
          forall k | 0 <= k < |region| ensures !InClass(region[k], ColonOrComma) {
            assert region[k] == seg[..colon][start + k];
          }
        }
        var tail := seg[colon + 1..];
        assert ':' !in tail by {
          forall k | 0 <= k < |tail| ensures tail[k] != ':' {
            assert !InClass(seg[colon + 1 + k], Colon);
          }
        }
        Some(Region(start, colon))
  }

  /** Neither ':' nor ','. */
  predicate NoSeparator(s: string)
  {
    forall k :: 0 <= k < |s| ==> !InClass(s[k], ColonOrComma)
  }

  /** The key group's capture from a non-empty key region. */
  function KeyOf(region: string): (key: string)
    requires |region| > 0
    ensures |key| > 0
    ensures NoSeparator(region) ==> NoSeparator(key)
    ensures Trimmed(region, RegexSpace) ==> key == region
  {
    var stripped := Trim(region, RegexSpace);
    if stripped == [] then region[|region| - 1..]
    else
      ghost var i :| Surrounds(region, stripped, i, RegexSpace);
      assert forall k :: 0 <= k < |stripped| ==> stripped[k] == region[i + k];
      stripped
  }

  /** The value group's capture, split and trimmed. */
  function ValuesOf(text: string): (vs: seq<string>)
    ensures |vs| >= 1
    ensures forall i :: 0 <= i < |vs| ==> Trimmed(vs[i], CutSpace)
  {
    TrimAll(Split(TrimLeft(text, RegexSpace), ','))
  }

  /** No cut character at either end. */
  predicate Trimmed(v: string, cut: CharClass)
  {
    |v| == 0 || (!InClass(v[0], cut) && !InClass(v[|v| - 1], cut))
  }

  lemma TrimTrimmed(v: string, cut: CharClass)
    requires Trimmed(v, cut)
    ensures Trim(v, cut) == v
  {
    assert Leading(v, cut) == 0;
    assert Trailing(v[0..], cut) == 0 by {
      assert v[0..] == v;
    }
  }

  function TrimAll(vs: seq<string>): (r: seq<string>)
    ensures |r| == |vs|
    ensures forall i :: 0 <= i < |r| ==> Trimmed(r[i], CutSpace)
    ensures forall i :: 0 <= i < |r| && Trimmed(vs[i], CutSpace) ==> r[i] == vs[i]
  {
    seq(|vs|, i requires 0 <= i < |vs| => Trim(vs[i], CutSpace))
  }

  /** The entries of an ID string, in order of appearance: no match can
      cross a ';', so each segment contributes at most one. */
  function Entries(segs: seq<string>): (es: seq<Entry>)
    ensures |es| <= |segs|
  {
    if |segs| == 0 then []
    else Entries(segs[..|segs| - 1])
         + (match ParseSegment(segs[|segs| - 1]) case Some(e) => [e] case None => [])
  }

  /** A well-formed entry: a key free of separators and of blanks at its
      ends, values trimmed and free of separators. */
  predicate WellFormedEntry(e: Entry)
  {
    && |e.key| > 0 && Trimmed(e.key, RegexSpace)
    && NoSeparator(e.key) && ';' !in e.key
    && |e.values| >= 1
    && (forall i :: 0 <= i < |e.values| ==> WellFormedValue(e.values[i]))
  }

  predicate WellFormedValue(v: string)
  {
    Trimmed(v, CutSpace) && NoSeparator(v) && ';' !in v
  }

  /** `KEY:v1,v2`, the way a printer writes one entry. */
  function FormatEntry(e: Entry): string
    requires |e.values| >= 1
  {
    e.key + ":" + Join(e.values, ',')
  }

  lemma {:induction false} JoinFree(parts: seq<string>, sep: char, c: char)
    requires |parts| >= 1 && c != sep
    requires forall i :: 0 <= i < |parts| ==> c !in parts[i]
    ensures c !in Join(parts, sep)
    decreases |parts|
  {
    if |parts| > 1 {
      JoinFree(parts[1..], sep, c);
    }
  }

  lemma IndexOfFirst(a: string, c: char, b: string)
    requires c !in a
    ensures IndexOf(a + [c] + b, c) == |a|
  {
    assert (a + [c] + b)[|a|] == c;
  }

  /** Splitting a join of separator-free parts gives the parts back. */
  lemma {:induction false} SplitJoin(parts: seq<string>, sep: char)
    requires |parts| >= 1
    requires forall i :: 0 <= i < |parts| ==> sep !in parts[i]
    ensures Split(Join(parts, sep), sep) == parts
    decreases |parts|
  {
    if |parts| > 1 {
      SplitJoin(parts[1..], sep);
      SplitFront(parts[0], sep, Join(parts[1..], sep));
      assert parts == [parts[0]] + parts[1..];
    } else {
      assert sep !in parts[0];
    }
  }

  /** A separator-free piece, the separator, and the rest split into the
      piece followed by the pieces of the rest. */
  lemma SplitFront(a: string, sep: char, b: string)
    requires sep !in a
    ensures Split(a + [sep] + b, sep) == [a] + Split(b, sep)
  {
    var s := a + [sep] + b;
    IndexOfFirst(a, sep, b);
    assert s[..|a|] == a;
    assert s[|a| + 1..] == b;
  }

  lemma NoSeparatorFree(s: string)
    requires NoSeparator(s)
    ensures ':' !in s && ',' !in s
  {
  }

  lemma LastWhereAt(s: string, p: CharClass, i: int)
    requires 0 <= i < |s| && InClass(s[i], p)
    requires forall j :: i < j < |s| ==> !InClass(s[j], p)
    ensures LastWhere(s, p) == i
  {
  }

  lemma LastColonOfFormat(e: Entry)
    requires WellFormedEntry(e)
    ensures LastWhere(FormatEntry(e), Colon) == |e.key|
  {
    forall i | 0 <= i < |e.values| ensures ':' !in e.values[i] {
      NoSeparatorFree(e.values[i]);
    }
    var joined := Join(e.values, ',');
    JoinFree(e.values, ',', ':');
    var seg := FormatEntry(e);
    assert seg == e.key + [':'] + joined;
    forall j | |e.key| < j < |seg| ensures !InClass(seg[j], Colon) {
      assert seg[j] == joined[j - |e.key| - 1];
    }
    LastWhereAt(seg, Colon, |e.key|);
  }

  lemma KeyRegionOfFormat(e: Entry)
    requires WellFormedEntry(e)
    ensures LastWhere(e.key, ColonOrComma) == -1
  {
  }

  lemma JoinHead(parts: seq<string>, sep: char)
    requires |parts| >= 1
    ensures |parts[0]| > 0 ==> |Join(parts, sep)| > 0 && Join(parts, sep)[0] == parts[0][0]
    ensures |parts[0]| == 0 && |parts| > 1 ==> |Join(parts, sep)| > 0 && Join(parts, sep)[0] == sep
    ensures |parts[0]| == 0 && |parts| == 1 ==> Join(parts, sep) == []
  {
  }

  /** The first value of a well-formed list starts with neither a blank
      nor a ',' so the value group strips nothing. */
  lemma JoinStartsTrimmed(values: seq<string>)
    requires |values| >= 1
    requires Trimmed(values[0], CutSpace)
    ensures TrimLeft(Join(values, ','), RegexSpace) == Join(values, ',')
  {
    var joined := Join(values, ',');
    JoinHead(values, ',');
    if |joined| > 0 {
      assert !InClass(joined[0], RegexSpace);
    }
    assert Leading(joined, RegexSpace) == 0;
  }

  lemma ValuesOfJoin(values: seq<string>)
    requires |values| >= 1
    requires forall i :: 0 <= i < |values| ==> WellFormedValue(values[i])
    ensures ValuesOf(Join(values, ',')) == values
  {
    var joined := Join(values, ',');
    assert WellFormedValue(values[0]);
    JoinStartsTrimmed(values);
    forall i | 0 <= i < |values| ensures ',' !in values[i] {
      assert WellFormedValue(values[i]);
      NoSeparatorFree(values[i]);
    }
    SplitJoin(values, ',');
    assert Split(TrimLeft(joined, RegexSpace), ',') == values;
    forall i | 0 <= i < |values| ensures Trimmed(values[i], CutSpace) {
      assert WellFormedValue(values[i]);
    }
    assert TrimAll(values) == values;
  }

  /** A well-formed entry written out is parsed back to itself. */
  lemma ParseFormatEntry(e: Entry)
    requires WellFormedEntry(e)
    ensures ParseSegment(FormatEntry(e)) == Some(e)
  {
    var seg := FormatEntry(e);
    LastColonOfFormat(e);
    var colon := |e.key|;
    assert seg[..colon] == e.key;
    KeyRegionOfFormat(e);
    assert seg[0..colon] == e.key;
    assert seg[colon + 1..] == Join(e.values, ',');
    ValuesOfJoin(e.values);
  }

  type DeviceIdMap = map<string, seq<string>>

  /** Entries stored left to right, so a repeated key keeps its last values. */
  function BuildMap(es: seq<Entry>): DeviceIdMap
  {
    if |es| == 0 then map[]
    else BuildMap(es[..|es| - 1])[es[|es| - 1].key := es[|es| - 1].values]
  }

  /** A key is present exactly when some entry has it, and it maps to the
      values of the last such entry. */
  lemma {:induction false} BuildMapLastWins(es: seq<Entry>, k: string)
    ensures k in BuildMap(es) <==> exists i :: 0 <= i < |es| && es[i].key == k
    ensures forall i :: 0 <= i < |es| && es[i].key == k
                        && (forall j :: i < j < |es| ==> es[j].key != k)
                        ==> BuildMap(es)[k] == es[i].values
    decreases |es|
  {
    if |es| > 0 {
      var init := es[..|es| - 1];
      BuildMapLastWins(init, k);
      if k in BuildMap(es) && es[|es| - 1].key != k {
        var i :| 0 <= i < |init| && init[i].key == k;
        assert es[i].key == k;
      }
      if exists i :: 0 <= i < |es| && es[i].key == k {
        var i :| 0 <= i < |es| && es[i].key == k;
        if i < |init| {
          assert init[i].key == k;
        }
      }
      assert BuildMap(es) == BuildMap(init)[es[|es| - 1].key := es[|es| - 1].values];
      forall i | 0 <= i < |es| && es[i].key == k && (forall j :: i < j < |es| ==> es[j].key != k)
        ensures BuildMap(es)[k] == es[i].values
      {
        if i < |init| {
          assert es[|es| - 1].key != k;
          assert init[i] == es[i];
          forall j | i < j < |init| ensures init[j].key != k {
            assert init[j] == es[j];
          }
        }
      }
    }
  }

  /** parseIEEE1284DeviceID, on the ID as characters. */
  function ParseString(s: string): (m: DeviceIdMap)
    ensures |m| <= |Split(s, ';')|
    ensures forall k :: k in m ==>
      exists i :: 0 <= i < |Split(s, ';')| && ParseSegment(Split(s, ';')[i]) == Some(Entry(k, m[k]))
    ensures forall i :: 0 <= i < |Split(s, ';')| && ParseSegment(Split(s, ';')[i]).Some? ==>
      ParseSegment(Split(s, ';')[i]).value.key in m
  {
    var es := Entries(Split(s, ';'));
    BuildMapSize(es);
    BuildMapFrom(es);
    EntriesSource(Split(s, ';'));
    EntriesComplete(Split(s, ';'));
    BuildMap(es)
  }

  /** Every parsed entry comes from some segment. */
  lemma {:induction false} EntriesSource(segs: seq<string>)
    ensures forall e :: e in Entries(segs) ==>
      exists i :: 0 <= i < |segs| && ParseSegment(segs[i]) == Some(e)
    decreases |segs|
  {
    if |segs| > 0 {
      var init, n := segs[..|segs| - 1], |segs| - 1;
      var tail := match ParseSegment(segs[n]) case Some(e) => [e] case None => [];
      assert Entries(segs) == Entries(init) + tail;
      EntriesSource(init);
      forall e | e in Entries(segs)
        ensures exists i :: 0 <= i < |segs| && ParseSegment(segs[i]) == Some(e)
      {
        if e in Entries(init) {
          var i :| 0 <= i < |init| && ParseSegment(init[i]) == Some(e);
          assert segs[i] == init[i];
        } else {
          assert e in tail;
          assert ParseSegment(segs[n]) == Some(e);
        }
      }
    }
  }

  /** Every segment that parses contributes its entry. */
  lemma EntriesComplete(segs: seq<string>)
    ensures forall i :: 0 <= i < |segs| && ParseSegment(segs[i]).Some? ==>
      ParseSegment(segs[i]).value in Entries(segs)
  {
    forall i | 0 <= i < |segs| && ParseSegment(segs[i]).Some?
      ensures ParseSegment(segs[i]).value in Entries(segs)
    {
      EntryOf(segs, i, ParseSegment(segs[i]).value);
    }
  }

  lemma EntryOf(segs: seq<string>, i: nat, e: Entry)
    requires i < |segs| && ParseSegment(segs[i]) == Some(e)
    ensures e in Entries(segs)
  {
    var pre := segs[..i + 1];
    assert pre[i] == segs[i];
    EntriesSnoc(pre, i);
    assert e in Entries(pre);
    EntriesPrefix(segs, i + 1);
  }

  /** Entries found in a prefix of the segments are found in all of them. */
  lemma {:induction false} EntriesPrefix(segs: seq<string>, j: nat)
    requires j <= |segs|
    ensures forall x :: x in Entries(segs[..j]) ==> x in Entries(segs)
    decreases |segs|
  {
    if j < |segs| {
      var n := |segs| - 1;
      EntriesSnoc(segs, n);
      EntriesPrefix(segs[..n], j);
      assert segs[..n][..j] == segs[..j];
    } else {
      assert segs[..j] == segs;
    }
  }

  /** Entries of a non-empty list: those of all but the last segment, then
      the last one's entry if it parses. */
  lemma EntriesSnoc(segs: seq<string>, n: nat)
    requires n + 1 == |segs|
    ensures Entries(segs) == Entries(segs[..n])
      + (if ParseSegment(segs[n]).Some? then [ParseSegment(segs[n]).value] else [])
  {
  }

  /** Every key of a parsed ID is non-empty and free of ':' and ',', and it
      has at least one value, each trimmed of blanks. */
  lemma ParseStringShape(s: string)
    ensures forall k :: k in ParseString(s) ==>
      |k| > 0 && NoSeparator(k) && |ParseString(s)[k]| >= 1
      && forall j :: 0 <= j < |ParseString(s)[k]| ==> Trimmed(ParseString(s)[k][j], CutSpace)
  {
    var m, segs := ParseString(s), Split(s, ';');
    forall k | k in m
      ensures |k| > 0 && NoSeparator(k) && |m[k]| >= 1
      ensures forall j :: 0 <= j < |m[k]| ==> Trimmed(m[k][j], CutSpace)
    {
      var i :| 0 <= i < |segs| && ParseSegment(segs[i]) == Some(Entry(k, m[k]));
      var e := ParseSegment(segs[i]).value;
      assert e.key == k && e.values == m[k];
    }
  }

  /** Every key of the built map is paired with the values of one of the
      entries, and every entry's key is present. */
  lemma {:induction false} BuildMapFrom(es: seq<Entry>)
    ensures forall k :: k in BuildMap(es) ==> Entry(k, BuildMap(es)[k]) in es
    ensures forall e :: e in es ==> e.key in BuildMap(es)
    decreases |es|
  {
    if |es| > 0 {
      var init := es[..|es| - 1];
      BuildMapFrom(init);
      assert es == init + [es[|es| - 1]];
    }
  }

  lemma {:induction false} BuildMapSize(es: seq<Entry>)
    ensures |BuildMap(es)| <= |es|
    decreases |es|
  {
    if |es| > 0 {
      BuildMapSize(es[..|es| - 1]);
    }
  }

  /** parseIEEE1284DeviceID: the bytes are taken one character each. */
  function Parse(id: seq<bv8>): (m: DeviceIdMap)
    ensures forall k :: k in m ==> |k| > 0 && NoSeparator(k) && |m[k]| >= 1
    ensures forall k :: k in m ==> forall j :: 0 <= j < |m[k]| ==> Trimmed(m[k][j], CutSpace)
  {
    ParseStringShape(Bits.Latin1(id));
    ParseString(Bits.Latin1(id))
  }

  function FormatAll(es: seq<Entry>): (segs: seq<string>)
    requires forall i :: 0 <= i < |es| ==> WellFormedEntry(es[i])
    ensures |segs| == |es|
  {
    seq(|es|, i requires 0 <= i < |es| => assert WellFormedEntry(es[i]); FormatEntry(es[i]))
  }

  /** A Device ID as a printer writes it: every entry closed by ';'. */
  function FormatId(es: seq<Entry>): string
    requires forall i :: 0 <= i < |es| ==> WellFormedEntry(es[i])
  {
    Join(FormatAll(es) + [""], ';')
  }

  lemma LastSplit<T>(s: seq<T>)
    requires |s| > 0
    ensures s == s[..|s| - 1] + [s[|s| - 1]]
  {
  }

  lemma {:induction false} EntriesFormatAll(es: seq<Entry>)
    requires forall i :: 0 <= i < |es| ==> WellFormedEntry(es[i])
    ensures Entries(FormatAll(es)) == es
    decreases |es|
  {
    if |es| > 0 {
      var n := |es| - 1;
      var init := es[..n];
      var segs := FormatAll(es);
      EntriesFormatAll(init);
      assert segs[..n] == FormatAll(init);
      assert WellFormedEntry(es[n]);
      assert segs[n] == FormatEntry(es[n]);
      ParseFormatEntry(es[n]);
      assert Entries(segs) == Entries(segs[..n]) + [es[n]];
      LastSplit(es);
    }
  }

  lemma NoSemicolonInFormat(e: Entry)
    requires WellFormedEntry(e)
    ensures ';' !in FormatEntry(e)
  {
    forall i | 0 <= i < |e.values| ensures ';' !in e.values[i] {
      assert WellFormedValue(e.values[i]);
    }
    JoinFree(e.values, ',', ';');
    assert FormatEntry(e) == e.key + [':'] + Join(e.values, ',');
  }

  lemma SplitFormatId(es: seq<Entry>)
    requires forall i :: 0 <= i < |es| ==> WellFormedEntry(es[i])
    ensures Split(FormatId(es), ';') == FormatAll(es) + [""]
  {
    var segs := FormatAll(es) + [""];
    forall i | 0 <= i < |segs| ensures ';' !in segs[i] {
      if i < |es| {
        assert WellFormedEntry(es[i]);
        NoSemicolonInFormat(es[i]);
      }
    }
    SplitJoin(segs, ';');
  }

  /** The empty segment after the closing ';' contributes nothing. */
  lemma EntriesDropEmpty(segs: seq<string>)
    ensures Entries(segs + [""]) == Entries(segs)
  {
    assert ParseSegment("") == None;
    assert (segs + [""])[..|segs|] == segs;
  }

  /** Reading back a Device ID written from well-formed entries yields
      their map: each key with the values of its last entry. */
  lemma ParseFormatId(es: seq<Entry>)
    requires forall i :: 0 <= i < |es| ==> WellFormedEntry(es[i])
    ensures ParseString(FormatId(es)) == BuildMap(es)
  {
    var segs := Split(FormatId(es), ';');
    assert ParseString(FormatId(es)) == BuildMap(Entries(segs));
    SplitFormatId(es);
    EntriesDropEmpty(FormatAll(es));
    EntriesFormatAll(es);
    assert Entries(segs) == es;
  }

  /** The key region found from the last colon and the last separator
      before it. */
  lemma KeyRegionAt(seg: string, colon: int, start: int)
    requires 0 <= start < colon < |seg|
    requires LastWhere(seg, Colon) == colon
    requires LastWhere(seg[..colon], ColonOrComma) == start - 1
    ensures KeyRegion(seg) == Some(Region(start, colon))
  {
  }

  /** A one-character value needing no trimming is read as itself. */
  lemma SingleValue(c: char)
    requires !IsCutSpace(c) && c != ','
    ensures ValuesOf([c]) == [[c]]
  {
    assert TrimLeft([c], RegexSpace) == [c];
    assert Split([c], ',') == [[c]];
    TrimTrimmed([c], CutSpace);
  }

  lemma SingleKey(c: char)
    requires !IsRegexSpace(c)
    ensures KeyOf([c]) == [c]
  {
    TrimTrimmed([c], RegexSpace);
  }

  /** A character that is neither blank nor one of the separators. */
  predicate Plain(c: char)
  {
    !IsCutSpace(c) && c != ':' && c != ',' && c != ';'
  }

  /** A second ':' moves the match: in `k:a:b` the key is `a`. */
  lemma ColonInValueShiftsKey(k: char, a: char, b: char)
    requires Plain(k) && Plain(a) && Plain(b)
    ensures ParseSegment([k, ':', a, ':', b]) == Some(Entry([a], [[b]]))
  {
    var seg := [k, ':', a, ':', b];
    LastWhereAt(seg, Colon, 3);
    assert seg[..3] == [k, ':', a];
    LastWhereAt([k, ':', a], ColonOrComma, 1);
    KeyRegionAt(seg, 3, 2);
    assert seg[2..3] == [a];
    SingleKey(a);
    assert seg[4..] == [b];
    SingleValue(b);
  }

  /** A ',' in the key region cuts the key: `a,b:x` gives key `b`. */
  lemma CommaInKeyCutsKey(a: char, b: char, x: char)
    requires Plain(a) && Plain(b) && Plain(x)
    ensures ParseSegment([a, ',', b, ':', x]) == Some(Entry([b], [[x]]))
  {
    var seg := [a, ',', b, ':', x];
    LastWhereAt(seg, Colon, 3);
    assert seg[..3] == [a, ',', b];
    LastWhereAt([a, ',', b], ColonOrComma, 1);
    KeyRegionAt(seg, 3, 2);
    assert seg[2..3] == [b];
    SingleKey(b);
    assert seg[4..] == [x];
    SingleValue(x);
  }

  lemma BlankKey(c: char, d: char)
    requires IsRegexSpace(c) && IsRegexSpace(d)
    ensures KeyOf([c, d]) == [d]
  {
    assert TrimLeft([c, d], RegexSpace) == [];
  }

  /** An all-blank key region keeps its last blank as the key. */
  lemma BlankKeyKeepsOneBlank(c: char, d: char, v: char)
    requires IsRegexSpace(c) && IsRegexSpace(d) && Plain(v)
    ensures ParseSegment([c, d, ':', v]) == Some(Entry([d], [[v]]))
  {
    var seg := [c, d, ':', v];
    LastWhereAt(seg, Colon, 2);
    assert seg[..2] == [c, d];
    assert LastWhere([c, d], ColonOrComma) == -1;
    KeyRegionAt(seg, 2, 0);
    assert seg[0..2] == [c, d];
    BlankKey(c, d);
    assert seg[3..] == [v];
    SingleValue(v);
  }

  /** deviceID.Find: the full key first, then the abbreviation, else nothing. */
  function Find(m: DeviceIdMap, key: string, abbreviation: string): (r: seq<string>)
    ensures key in m ==> r == m[key]
    ensures key !in m && abbreviation in m ==> r == m[abbreviation]
    ensures key !in m && abbreviation !in m ==> r == []
  {
    if key in m then m[key]
    else if abbreviation in m then m[abbreviation]
    else []
  }

  /** deviceID.FindFirst: the first value found, or the empty string. */
  function FindFirst(m: DeviceIdMap, key: string, abbreviation: string): (r: string)
    ensures |Find(m, key, abbreviation)| > 0 ==> r == Find(m, key, abbreviation)[0]
    ensures |Find(m, key, abbreviation)| == 0 ==> r == ""
  {
    var values := Find(m, key, abbreviation);
    if |values| > 0 then values[0] else ""
  }

  /** The command set this driver speaks. */
  const CommandSet: string := "PT-CBP"

  /** compatible: true iff the command set list contains PT-CBP. */
  function Compatible(m: DeviceIdMap): (ok: bool)
    ensures ok <==> exists i :: 0 <= i < |Find(m, "COMMAND SET", "CMD")| && Find(m, "COMMAND SET", "CMD")[i] == CommandSet
  {
    CommandSet in Find(m, "COMMAND SET", "CMD")
  }

  // ---------------------------------------------------------------------------
  // Lookups on an ID written from entries

  predicate HasKey(es: seq<Entry>, k: string)
  {
    exists i :: 0 <= i < |es| && es[i].key == k
  }

  /** Entry `i` is the last one with key `k`. */
  predicate LastWith(es: seq<Entry>, i: int, k: string)
  {
    0 <= i < |es| && es[i].key == k && forall j :: i < j < |es| ==> es[j].key != k
  }

  /** A key that occurs has a last occurrence. */
  lemma {:induction false} LastWithExists(es: seq<Entry>, k: string)
    requires HasKey(es, k)
    ensures exists i :: LastWith(es, i, k)
    decreases |es|
  {
    var n := |es| - 1;
    if es[n].key != k {
      var i :| 0 <= i < |es| && es[i].key == k;
      var init := es[..n];
      assert init[i].key == k;
      LastWithExists(init, k);
      var m :| LastWith(init, m, k);
      assert LastWith(es, m, k);
    } else {
      assert LastWith(es, n, k);
    }
  }

  /** Looking a key up in an ID written from well-formed entries finds the
      values of the last entry with the full key, else of the last one with
      the abbreviation, else nothing. */
  lemma FindFormatId(es: seq<Entry>, key: string, abbreviation: string)
    requires forall i :: 0 <= i < |es| ==> WellFormedEntry(es[i])
    ensures var r := Find(ParseString(FormatId(es)), key, abbreviation);
      && (forall i :: LastWith(es, i, key) ==> r == es[i].values)
      && (!HasKey(es, key) ==> forall i :: LastWith(es, i, abbreviation) ==> r == es[i].values)
      && (!HasKey(es, key) && !HasKey(es, abbreviation) ==> r == [])
  {
    ParseFormatId(es);
    BuildMapLastWins(es, key);
    BuildMapLastWins(es, abbreviation);
  }

  /** The first value of that entry; entries written by a printer always
      carry at least one value, so "" means the key is missing. */
  lemma FindFirstFormatId(es: seq<Entry>, key: string, abbreviation: string)
    requires forall i :: 0 <= i < |es| ==> WellFormedEntry(es[i])
    ensures var r := FindFirst(ParseString(FormatId(es)), key, abbreviation);
      && (forall i :: LastWith(es, i, key) ==> r == es[i].values[0])
      && (!HasKey(es, key) ==> forall i :: LastWith(es, i, abbreviation) ==> r == es[i].values[0])
      && (!HasKey(es, key) && !HasKey(es, abbreviation) ==> r == "")
  {
    FindFormatId(es, key, abbreviation);
    forall i | 0 <= i < |es| ensures |es[i].values| >= 1 {
      assert WellFormedEntry(es[i]);
    }
  }

  /** The driver accepts a written ID exactly when PT-CBP is among the values
      of the last COMMAND SET entry, or of the last CMD entry when there is
      no COMMAND SET. */
  lemma CompatibleFormatId(es: seq<Entry>)
    requires forall i :: 0 <= i < |es| ==> WellFormedEntry(es[i])
    ensures HasKey(es, "COMMAND SET") ==>
      forall i :: LastWith(es, i, "COMMAND SET") ==>
        (Compatible(ParseString(FormatId(es))) <==> CommandSet in es[i].values)
    ensures !HasKey(es, "COMMAND SET") && HasKey(es, "CMD") ==>
      forall i :: LastWith(es, i, "CMD") ==>
        (Compatible(ParseString(FormatId(es))) <==> CommandSet in es[i].values)
    ensures !HasKey(es, "COMMAND SET") && !HasKey(es, "CMD") ==> !Compatible(ParseString(FormatId(es)))
  {
    FindFormatId(es, "COMMAND SET", "CMD");
  }
}
