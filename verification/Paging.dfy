/** Paged reads of one segment: the cursor text, the server's page, and the client that follows cursors. */
module Paging {
  import opened Binary
  import opened Frames

  // ----- Cursors -----

  const CURSOR_PREFIX: byte := 101     // e
  const SEPARATOR: byte := 126         // ~

  function EncodeCursor(index: nat, identity: Text): Text {
    [CURSOR_PREFIX] + Decimal(index) + [SEPARATOR] + identity
  }

  predicate AllDigits(t: Text) {
    t != [] && forall i :: 0 <= i < |t| ==> 48 <= t[i] <= 57
  }

  function SeparatorAt(t: Text): (i: nat)
    ensures i <= |t|
  {
    if t == [] || t[0] == SEPARATOR then 0 else 1 + SeparatorAt(t[1..])
  }

  // None stands for ValueError; the identity is absent only for "no cursor".
  function DecodeCursor(cursor: Option<Text>): Option<(nat, Option<Text>)> {
    if cursor.None? then Some((0, None))
    else if cursor.value == [] || cursor.value[0] != CURSOR_PREFIX then None
    else
      var rest := cursor.value[1..];
      var at := SeparatorAt(rest);
      var offset, identity := rest[..at], if at < |rest| then rest[at + 1..] else [];
      if !AllDigits(offset) || identity == [] then None
      else Some((DecimalValue(offset), Some(identity)))
  }

  lemma {:induction false} SeparatorAfterDigits(digits: Text, rest: Text)
    requires forall i :: 0 <= i < |digits| ==> digits[i] != SEPARATOR
    ensures SeparatorAt(digits + [SEPARATOR] + rest) == |digits|
    decreases |digits|
  {
    if digits == [] {
      assert digits + [SEPARATOR] + rest == [SEPARATOR] + rest;
    } else {
      SeparatorAfterDigits(digits[1..], rest);
      assert (digits + [SEPARATOR] + rest)[1..] == digits[1..] + [SEPARATOR] + rest;
    }
  }

  lemma CursorRoundTrip(index: nat, identity: Text)
    ensures DecodeCursor(Some(EncodeCursor(index, identity))) ==
            if identity == [] then None else Some((index, Some(identity)))
  {
    var cursor := EncodeCursor(index, identity);
    var rest := Decimal(index) + [SEPARATOR] + identity;
    assert cursor[1..] == rest;
    SeparatorAfterDigits(Decimal(index), identity);
    assert rest[..|Decimal(index)|] == Decimal(index) && rest[|Decimal(index)| + 1..] == identity;
    DecimalRoundTrip(index);
  }

  // The text of a cursor: e, a number in digits, ~, and an identity that is not empty; nothing else decodes.
  lemma CursorText(digits: Text, identity: Text)
    requires AllDigits(digits) && identity != []
    ensures DecodeCursor(Some([101] + digits + [126] + identity)) == Some((DecimalValue(digits), Some(identity)))
  {
    var t := [101] + digits + [126] + identity;
    var rest := digits + [SEPARATOR] + identity;
    assert t[1..] == rest;
    SeparatorAfterDigits(digits, identity);
    assert rest[..|digits|] == digits && rest[|digits| + 1..] == identity;
  }

  lemma {:induction false} SeparatorFound(t: Text)
    ensures SeparatorAt(t) < |t| ==> t[SeparatorAt(t)] == SEPARATOR
    decreases |t|
  {
    if t != [] && t[0] != SEPARATOR {
      SeparatorFound(t[1..]);
    }
  }

  lemma OnlyCursorText(t: Text) returns (digits: Text, identity: Text)
    ensures DecodeCursor(Some(t)).Some? ==>
              && t == [101] + digits + [126] + identity && identity != []
              && digits != [] && forall i :: 0 <= i < |digits| ==> '0' as int <= digits[i] <= '9' as int
  {
    digits, identity := [], [];
    if DecodeCursor(Some(t)).Some? {
      var rest := t[1..];
      var at := SeparatorAt(rest);
      SeparatorFound(rest);
      digits, identity := rest[..at], rest[at + 1..];
      assert t == [101] + rest && rest == digits + [126] + identity;
    }
  }

  lemma CursorsAdvance(i: nat, j: nat, identity: Text)
    requires identity != [] && i != j
    ensures EncodeCursor(i, identity) != EncodeCursor(j, identity)
  {
    CursorRoundTrip(i, identity);
    CursorRoundTrip(j, identity);
  }

  // ----- One page -----

  datatype Line<T> = Blank | Item(item: T)

  // The non-blank lines, in storage order.
  function Items<T>(lines: seq<Line<T>>): (r: seq<T>)
    ensures |r| <= |lines|
  {
    if lines == [] then []
    else
      var init, last := Items(lines[..|lines| - 1]), lines[|lines| - 1];
      if last.Blank? then init else init + [last.item]
  }

  lemma ItemsSnoc<T>(lines: seq<Line<T>>, i: nat)
    requires i < |lines|
    ensures Items(lines[..i + 1]) == Items(lines[..i]) + if lines[i].Blank? then [] else [lines[i].item]
  {
    assert lines[..i + 1][..i] == lines[..i];
  }

  lemma {:induction false} ItemsGrow<T>(lines: seq<Line<T>>, more: seq<Line<T>>)
    requires lines <= more
    ensures Items(lines) <= Items(more)
    decreases |more|
  {
    if |lines| < |more| {
      ItemsGrow(lines, more[..|more| - 1]);
    } else {
      assert lines == more;
    }
  }

  function Slice<T>(s: seq<T>, from: nat, to: nat): seq<T>
    requires from <= to
  {
    if from >= |s| then [] else s[from..Min(to, |s|)]
  }

  lemma ItemsNone<T>()
    ensures Items<T>([]) == []
  {
  }

  method PageOfLines<T>(lines: seq<Line<T>>, start: nat, limit: nat) returns (page: seq<T>, more: bool)
    ensures page == Slice(Items(lines), start, start + limit)
    ensures more <==> |Items(lines)| > start + limit
  {
    hide Items;
    page, more := [], false;
    var index := 0;
    ItemsNone<T>();
    for i := 0 to |lines|
      invariant index == |Items(lines[..i])| <= start + limit
      invariant page == Slice(Items(lines[..i]), start, start + limit)
    {
      ItemsSnoc(lines, i);
      if lines[i].Blank? {
        continue;
      }
      ghost var seen := Items(lines[..i]);
      if index >= start {
        if |page| == limit {
          more := true;
          ItemsGrow(lines[..i + 1], lines);
          assert Slice(Items(lines), start, start + limit) == Slice(seen, start, start + limit);
          return;
        }
        page := page + [lines[i].item];
      }
      index := index + 1;
    }
    assert lines[..|lines|] == lines;
  }

  // ----- The server's page of a rotating chain -----

  datatype Segment<T> = Segment(identity: Text, lines: seq<Line<T>>)

  // Oldest first; the last one is active. Identities are file names, so they are distinct.
  predicate Directory<T(!new)>(segments: seq<Segment<T>>) {
    && (forall i :: 0 <= i < |segments| ==> segments[i].identity != [])
    && (forall i, j :: 0 <= i < j < |segments| ==> segments[i].identity != segments[j].identity)
  }

  datatype Page<T> = Page(items: seq<T>, next: Option<Text>)

  function Find<T>(segments: seq<Segment<T>>, identity: Text): (i: nat)
    ensures i <= |segments|
    ensures i < |segments| ==> segments[i].identity == identity
    ensures i == |segments| ==> forall k :: 0 <= k < |segments| ==> segments[k].identity != identity
  {
    if segments == [] then 0
    else
      var n := |segments| - 1;
      var i := Find(segments[..n], identity);
      if i < n then i else if segments[n].identity == identity then n else |segments|
  }

  // None stands for the ValueError of a bad cursor.
  method GetPage<T>(segments: seq<Segment<T>>, cursor: Option<Text>, limit: nat) returns (r: Option<Page<T>>)
    ensures r == PageSpec(segments, cursor, limit)
  {
    var decoded := DecodeCursor(cursor);
    if decoded.None? {
      return None;
    }
    var start, identity := decoded.value.0, decoded.value.1;
    var trail: Segment<T>;
    if identity.None? {
      if segments == [] {
        return Some(Page([], None));
      }
      trail := segments[|segments| - 1];
    } else {
      var i := Find(segments, identity.value);
      if i == |segments| {
        return None;
      }
      trail := segments[i];
    }
    var page, more := PageOfLines(trail.lines, start, limit);
    if !more {
      return Some(Page(page, None));
    }
    return Some(Page(page, Some(EncodeCursor(start + |page|, trail.identity))));
  }

  // The page from start of the named segment, or of the active one.
  function PageSpec<T>(segments: seq<Segment<T>>, cursor: Option<Text>, limit: nat): Option<Page<T>> {
    var decoded := DecodeCursor(cursor);
    if decoded.None? then None
    else if decoded.value.1.None? && segments == [] then Some(Page([], None))
    else
      var start := decoded.value.0;
      var i := if decoded.value.1.None? then |segments| - 1 else Find(segments, decoded.value.1.value);
      if i == |segments| then None
      else
        var items := Items(segments[i].lines);
        var page := Slice(items, start, start + limit);
        Some(Page(page, if |items| > start + limit then Some(EncodeCursor(start + |page|, segments[i].identity)) else None))
  }

  // Refused are exactly the cursors that do not decode and those that name no segment of this chain.
  lemma PageRefused<T>(segments: seq<Segment<T>>, cursor: Option<Text>, limit: nat)
    ensures PageSpec(segments, cursor, limit).None? <==>
              && cursor.Some?
              && (DecodeCursor(cursor).None? || forall i :: 0 <= i < |segments| ==> Some(segments[i].identity) != DecodeCursor(cursor).value.1)
  {
    var decoded := DecodeCursor(cursor);
    if cursor.Some? && decoded.Some? {
      var i := Find(segments, decoded.value.1.value);
      assert i < |segments| ==> segments[i].identity == decoded.value.1.value;
    }
  }

  // ----- The client -----

  const MAX_PAGES := 1_000_000

  // Later directories have the same segments, possibly longer, and possibly more of them.
  predicate Grows<T(==)>(before: seq<Segment<T>>, after: seq<Segment<T>>) {
    && |before| <= |after|
    && forall i :: 0 <= i < |before| ==>
         before[i].identity == after[i].identity && before[i].lines <= after[i].lines
  }

  datatype ReadResult<T> =
    | Complete(items: seq<T>, requests: nat)
    | BadCursor
    | CursorRepeated
    | TooManyPages(items: seq<T>)

  ghost predicate Growing<T(!new)>(views: nat -> seq<Segment<T>>) {
    && (forall p: nat :: Directory(views(p)))
    && (forall p: nat :: Grows(views(p), views(p + 1)))
  }

  lemma {:induction false} GrowsFromFirst<T(!new)>(views: nat -> seq<Segment<T>>, p: nat)
    requires Growing(views)
    ensures Grows(views(0), views(p))
  {
    if p > 0 {
      GrowsFromFirst(views, p - 1);
      assert Grows(views(p - 1), views(p - 1 + 1));
    }
  }

  // The segment being read, as request p sees it.
  function Seen<T>(views: nat -> seq<Segment<T>>, p: nat): seq<T>
    requires 0 < |views(0)| <= |views(p)|
  {
    Items(views(p)[|views(0)| - 1].lines)
  }

  // Request p answered by the directory as it then is: views(p).
  method ReadAll<T(!new,==)>(views: nat -> seq<Segment<T>>, limit: nat) returns (r: ReadResult<T>)
    requires Growing(views) && limit >= 1
    ensures r.Complete? || r.TooManyPages?
    ensures views(0) == [] ==> r == Complete([], 1)
    ensures views(0) != [] && r.Complete? ==>
              && 1 <= r.requests <= 1_000_000 && |views(0)| <= |views(r.requests - 1)|
              && r.items == Seen(views, r.requests - 1)
              && Seen(views, 0) <= r.items
    ensures views(0) != [] && r.TooManyPages? ==>
              && |views(0)| <= |views(999_999)|
              && |Seen(views, 999_999)| > 1_000_000 * limit
              && r.items == Seen(views, 999_999)[..1_000_000 * limit]
  {
    hide Items, Seen, EncodeCursor, DecodeCursor, PageSpec, Growing, Grows;
    var cursor: Option<Text>, items: seq<T> := None, [];
    for p := 0 to MAX_PAGES
      invariant p == 0 ==> cursor == None && items == []
      invariant p > 0 ==> 0 < |views(0)| <= |views(p - 1)| && Between(views, p - 1, items, cursor)
      invariant |items| == p * limit
    {
      GrowsFromFirst(views, p);
      ghost var before := items;
      var page := GetPage(views(p), cursor, limit);
      if views(0) == [] {
        NoChain(views(p), limit);
      } else {
        NextRequest(views, p, items, cursor, limit);
      }
      if page.None? {
        return BadCursor;
      }
      items := items + page.value.items;
      if page.value.next.None? {
        return Complete(items, p + 1);
      }
      if page.value.next == cursor {
        return CursorRepeated;
      }
      cursor := page.value.next;
      assert p * limit + limit == (p + 1) * limit;
    }
    return TooManyPages(items);
  }

  // Request p has been answered with these items so far, and there is more.
  ghost predicate Between<T>(views: nat -> seq<Segment<T>>, p: nat, items: seq<T>, cursor: Option<Text>)
    requires 0 < |views(0)| <= |views(p)|
  {
    && cursor == Some(EncodeCursor(|items|, views(0)[|views(0)| - 1].identity))
    && items < Seen(views, p)
  }

  lemma SeenGrows<T(!new)>(views: nat -> seq<Segment<T>>, p: nat)
    requires Growing(views) && 0 < |views(0)| <= |views(p)|
    ensures |views(0)| <= |views(p + 1)| && Seen(views, p) <= Seen(views, p + 1)
  {
    assert Grows(views(p), views(p + 1));
    ItemsGrow(views(p)[|views(0)| - 1].lines, views(p + 1)[|views(0)| - 1].lines);
  }

  lemma {:induction false} SeenExtends<T(!new)>(views: nat -> seq<Segment<T>>, p: nat)
    requires Growing(views)
    ensures 0 < |views(0)| ==> |views(0)| <= |views(p)| && Seen(views, 0) <= Seen(views, p)
  {
    if p > 0 && 0 < |views(0)| {
      SeenExtends(views, p - 1);
      SeenGrows(views, p - 1);
    }
  }

  // Request p gets the next limit entries of the segment the first request chose.
  lemma RequestReads<T(!new)>(views: nat -> seq<Segment<T>>, p: nat, start: nat, cursor: Option<Text>, limit: nat)
    requires Growing(views) && 0 < |views(0)| <= |views(p)| && Grows(views(0), views(p))
    requires p > 0 ==> cursor == Some(EncodeCursor(start, views(0)[|views(0)| - 1].identity))
    requires p == 0 ==> cursor.None? && start == 0
    ensures var seen := Seen(views, p);
            var page := Slice(seen, start, start + limit);
            PageSpec(views(p), cursor, limit) ==
            Some(Page(page, if |seen| > start + limit
                            then Some(EncodeCursor(start + |page|, views(0)[|views(0)| - 1].identity)) else None))
  {
    hide EncodeCursor, DecodeCursor, Find, Directory, Items, Slice;
    var at := |views(0)| - 1;
    var identity := views(0)[at].identity;
    ActiveIsFirst(views(0), views(p), at);
    if p > 0 {
      FirstNamed(views);
      CursorRoundTrip(start, identity);
      assert Directory(views(p));
      FindsAt(views(p), at);
    } else {
      NoCursor();
    }
  }

  lemma FindsAt<T(!new)>(segments: seq<Segment<T>>, at: nat)
    requires Directory(segments) && at < |segments|
    ensures Find(segments, segments[at].identity) == at
  {
    var i := Find(segments, segments[at].identity);
  }

  lemma NoCursor()
    ensures DecodeCursor(None) == Some((0, None))
  {
  }

  lemma ActiveIsFirst<T>(before: seq<Segment<T>>, after: seq<Segment<T>>, at: nat)
    requires Grows(before, after) && at < |before|
    ensures before[at].identity == after[at].identity
  {
  }

  lemma NoChain<T>(segments: seq<Segment<T>>, limit: nat)
    ensures segments == [] ==> PageSpec(segments, None, limit) == Some(Page([], None))
  {
  }

  lemma NextRequest<T(!new)>(views: nat -> seq<Segment<T>>, p: nat, items: seq<T>, cursor: Option<Text>, limit: nat)
    requires Growing(views) && 0 < |views(0)| <= |views(p)| && Grows(views(0), views(p)) && limit >= 1
    requires p == 0 ==> cursor == None && items == []
    requires p > 0 ==> |views(0)| <= |views(p - 1)| && Between(views, p - 1, items, cursor)
    ensures PageSpec(views(p), cursor, limit).Some?
    ensures var page := PageSpec(views(p), cursor, limit).value;
            var all := items + page.items;
            if page.next.None? then all == Seen(views, p) && Seen(views, 0) <= all
            else |page.items| == limit && Between(views, p, all, page.next) && page.next != cursor
  {
    hide Items, EncodeCursor, DecodeCursor, PageSpec, Growing, Grows, Seen;
    var identity := views(0)[|views(0)| - 1].identity;
    SeenExtends(views, p);
    if p > 0 {
      SeenGrows(views, p - 1);
    }
    RequestReads(views, p, |items|, cursor, limit);
    FirstNamed(views);
    CursorsAdvance(|items|, |items| + limit, identity);
  }

  lemma FirstNamed<T(!new)>(views: nat -> seq<Segment<T>>)
    requires Growing(views) && 0 < |views(0)|
    ensures views(0)[|views(0)| - 1].identity != []
  {
    assert Directory(views(0));
  }
}
