/** The dimension scanner: one pass that measures the widest segment and
    counts newlines. */
module Dims {
  import opened Lines
  import opened Symbols

  /** One pass of the measuring loop: reads `c` with `width` the widest
      completed segment, `current` the length of the one in progress and
      `rows` the newlines so far, all for the characters `seen` before it. */
  method MeasureChar(c: char, width: nat, current: nat, rows: nat, ghost seen: string)
    returns (width': nat, current': nat, rows': nat)
    requires width == MaxLen(Init(Segments(seen)))
    requires current == |Last(Segments(seen))|
    requires rows == NewlineCount(seen)
    ensures width' == MaxLen(Init(Segments(seen + [c])))
    ensures current' == |Last(Segments(seen + [c]))|
    ensures rows' == NewlineCount(seen + [c])
  {
    if c == NEW_LINE {
      ScanNewline(seen);
      MaxLenSplit(Segments(seen));
      width' := if current > width then current else width;
      current' := 0;
      rows' := rows + 1;
    } else {
      ScanOther(seen, c);
      width' := width;
      current' := current + 1;
      rows' := rows;
    }
  }

  /** Scans the C string in `str`. `width` is the length of the longest
      segment, the trailing unterminated one included; `rows` counts newlines
      only, so a trailing unterminated segment never adds a row. */
  method GetDims(str: seq<char>) returns (width: nat, rows: nat, status: int)
    ensures rows == NewlineCount(CStr(str))
    ensures width == Width(CStr(str))
    ensures forall k :: 0 <= k < |Segments(CStr(str))| ==> |Segments(CStr(str))[k]| <= width
    ensures exists k :: 0 <= k < |Segments(CStr(str))| && |Segments(CStr(str))[k]| == width
    ensures width == 0 && rows == 0 <==> CStr(str) == []
    ensures status == EXIT_SUCCESS
  {
    width := 0;
    rows := 0;
    var current: nat := 0;
    var p := 0;
    ghost var seen: string := [];
    while p < |str| && str[p] != NULL_TERM
      invariant p <= |str|
      invariant seen == str[..p]
      invariant NULL_TERM !in seen
      invariant rows == NewlineCount(seen)
      invariant current == |Last(Segments(seen))|
      invariant width == MaxLen(Init(Segments(seen)))
    {
      PrefixSnoc(str, p);
      width, current, rows := MeasureChar(str[p], width, current, rows, seen);
      seen := seen + [str[p]];
      p := p + 1;
    }
    MaxLenSplit(Segments(seen));
    if current > width {
      width := current;
    }
    CStrAt(str, p);
    MaxLenIsMax(Segments(seen));
    DimsZeroIffEmpty(seen);
    status := EXIT_SUCCESS;
  }
}
