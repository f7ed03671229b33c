/** MongoDB object identifiers as the backend sees them: `ObjectId(s)` accepts a
    24-digit hexadecimal string (either case) and `str(oid)` gives back the
    lower-case hexadecimal form. */
module ObjectIds {
  import opened Outcomes

  datatype ObjectId = ObjectId(hex: string)

  predicate IsHexDigit(c: char) {
    '0' <= c <= '9' || 'a' <= c <= 'f' || 'A' <= c <= 'F'
  }

  predicate IsLowerHexDigit(c: char) {
    '0' <= c <= '9' || 'a' <= c <= 'f'
  }

  /** An id as the database hands it out: 24 lower-case hexadecimal digits. */
  predicate WellFormed(o: ObjectId) {
    |o.hex| == 24 && forall i :: 0 <= i < |o.hex| ==> IsLowerHexDigit(o.hex[i])
  }

  function LowerHex(c: char): (d: char)
    requires IsHexDigit(c)
    ensures IsLowerHexDigit(d)
    ensures IsLowerHexDigit(c) ==> d == c
  {
    if 'A' <= c <= 'F' then (c as int - 'A' as int + 'a' as int) as char else c
  }

  /** `str(oid)`. */
  function ToStr(o: ObjectId): string {
    o.hex
  }

  /** `ObjectId(s)`: succeeds exactly on 24 hexadecimal digits; raises `InvalidId` otherwise. */
  function Parse(s: string): (r: Option<ObjectId>)
    ensures r.Some? <==> |s| == 24 && forall i :: 0 <= i < |s| ==> IsHexDigit(s[i])
    ensures r.Some? ==> WellFormed(r.value)
  {
    if |s| == 24 && forall i :: 0 <= i < |s| ==> IsHexDigit(s[i]) then
      Some(ObjectId(seq(|s|, i requires 0 <= i < |s| => LowerHex(s[i]))))
    else
      None
  }

  /** Parsing the string form of a stored id gives the same id back. */
  lemma ParseToStr(o: ObjectId)
    requires WellFormed(o)
    ensures Parse(ToStr(o)) == Some(o)
  {
    var s := ToStr(o);
    assert forall i :: 0 <= i < |s| ==> IsHexDigit(s[i]);
    var lowered := seq(|s|, i requires 0 <= i < |s| => LowerHex(s[i]));
    assert lowered == o.hex;
  }
}
