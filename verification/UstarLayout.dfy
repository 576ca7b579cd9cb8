/**
 The layout of a header, from the table "ustar Interchange Format" of POSIX.1-2017: every field in
 order with its width. Reading at the archive's offsets gives the fields back, and a new header has
 the fields that tarTouch is meant to give it.
 */
module UstarLayout {
  import opened Archive
  import opened Bytes
  import opened Numbers

  datatype Fields = Fields(name: seq<byte>, mode: seq<byte>, uid: seq<byte>, gid: seq<byte>, size: seq<byte>,
                           mtime: seq<byte>, chksum: seq<byte>, typeflag: byte, linkname: seq<byte>,
                           magic: seq<byte>, version: seq<byte>, uname: seq<byte>, gname: seq<byte>,
                           devmajor: seq<byte>, devminor: seq<byte>, prefix: seq<byte>, pad: seq<byte>)
  {
    predicate Wide() {
      && |name| == 100 && |mode| == 8 && |uid| == 8 && |gid| == 8 && |size| == 12 && |mtime| == 12
      && |chksum| == 8 && |linkname| == 100 && |magic| == 6 && |version| == 2 && |uname| == 32
      && |gname| == 32 && |devmajor| == 8 && |devminor| == 8 && |prefix| == 155 && |pad| == 12
    }

    /** The fields up to the size, up to the type, up to the magic, and the rest. */
    function Owner(): seq<byte> {
      name + (mode + uid + gid)
    }

    function Dates(): seq<byte> {
      size + (mtime + chksum)
    }

    function Names(): seq<byte> {
      magic + (version + uname + gname + devmajor + devminor + prefix + pad)
    }

    function Block(): seq<byte> {
      Owner() + Dates() + ([typeflag] + linkname) + Names()
    }
  }

  lemma FieldAt(before: seq<byte>, field: seq<byte>, after: seq<byte>, at: nat, n: nat)
    requires at == |before| && n <= |field|
    ensures (before + (field + after))[at..at + n] == field[..n]
  {}

  /** What the walk reads of a header is what the fields say. */
  lemma HeaderReads(h: Fields, s: seq<byte>)
    requires h.Wide() && s == h.Block()
    ensures |s| == BLOCK && (IsHeader(s) <==> h.magic[..5] == Ascii("ustar") && h.typeflag != '5' as int)
    ensures Name(s) == CStr(h.name)
    ensures HeaderOk(s) <==> IsHeader(s) && NUL in h.name && IsNumeral(8, h.size[..11])
    ensures HeaderOk(s) ==> FileSize(s) == Value(8, h.size[..11])
  {
    var o, d, t, n := h.Owner(), h.Dates(), [h.typeflag] + h.linkname, h.Names();
    assert s[..100] == h.name;
    Regrouped(o, d, t, n);
    FieldAt(o, h.size, (h.mtime + h.chksum) + (t + n), 124, 11);
    assert s == o + (h.size + ((h.mtime + h.chksum) + (t + n)));
    FieldAt(o + d + t, h.magic, h.version + h.uname + h.gname + h.devmajor + h.devminor + h.prefix + h.pad, 257, 5);
    assert s[156] == h.typeflag;
    assert Ascii("ustar") == USTAR;
  }

  lemma Regrouped(o: seq<byte>, d: seq<byte>, t: seq<byte>, n: seq<byte>)
    ensures o + d + t + n == o + (d + (t + n))
  {}

  /** A field of the new header, as text. */
  ghost predicate Says(h: seq<byte>, at: nat, text: seq<byte>, width: nat) {
    at + width <= |h| && |text| <= width && h[at..at + width] == text + Zeros(width - |text|)
  }

  /** Who owns a new file, and what may be done with it: 0777, user 0 and group 0. */
  lemma NewOwner(name: seq<byte>)
    requires |name| < 100 && NUL !in name
    ensures var h := NewHeader(name);
            && Says(h, 0, name, 100) && Says(h, 100, Ascii("0000777"), 8)
            && Says(h, 108, Ascii("0000000"), 8) && Says(h, 116, Ascii("0000000"), 8)
  {}

  /** A new file is empty, and has neither a date nor a checksum. */
  lemma NewSize(name: seq<byte>)
    requires |name| < 100 && NUL !in name
    ensures var h := NewHeader(name);
            && Says(h, 124, Ascii("00000000000"), 12) && Says(h, 136, [], 12) && Says(h, 148, Ascii("        "), 8)
  {}

  /** It is a regular file of the ustar format, version 00, of root. */
  lemma NewKind(name: seq<byte>)
    requires |name| < 100 && NUL !in name
    ensures var h := NewHeader(name);
            && Says(h, 156, Ascii("0"), 1) && Says(h, 157, [], 100) && Says(h, 257, Ascii("ustar"), 6)
            && Says(h, 263, Ascii("00"), 2) && Says(h, 265, Ascii("root"), 32) && Says(h, 297, Ascii("root"), 32)
            && Says(h, 329, [], 8) && Says(h, 337, [], 8) && Says(h, 345, [], 155) && Says(h, 500, [], 12)
  {}
}
