/** The file names of the audit directory: the four files of an envelope under its stem, and the names
    they have while they are being written. */
module AuditNames {
  import opened Bytes
  import opened Release

  datatype Ext = Msg | Attest | Sig | Tag {
    function Text(): Bytes {
      match this
      case Msg => Ascii("msg")
      case Attest => Ascii("attest")
      case Sig => Ascii("sig")
      case Tag => Ascii("tag")
    }
  }

  const DOT: u8 := 46
  const PART_SUFFIX: Bytes := Ascii(".part")

  /** The name of a published file. */
  function Final(stem: Bytes, ext: Ext): Bytes {
    stem + [DOT] + ext.Text()
  }

  /** Its name until then. */
  function Part(stem: Bytes, ext: Ext): Bytes {
    Final(stem, ext) + PART_SUFFIX
  }

  lemma Texts()
    ensures Msg.Text() == [109, 115, 103] && Attest.Text() == [97, 116, 116, 101, 115, 116]
    ensures Sig.Text() == [115, 105, 103] && Tag.Text() == [116, 97, 103]
    ensures PART_SUFFIX == [46, 112, 97, 114, 116]
  {
  }

  function ExtOf(text: Bytes): Option<Ext> {
    if text == Msg.Text() then Some(Msg)
    else if text == Attest.Text() then Some(Attest)
    else if text == Sig.Text() then Some(Sig)
    else if text == Tag.Text() then Some(Tag)
    else None
  }

  lemma ExtOfText(ext: Ext)
    ensures ExtOf(ext.Text()) == Some(ext) && DOT !in ext.Text()
  {
    Texts();
  }

  /** `str::rsplit_once`. */
  function RSplitOnce(s: Bytes, sep: u8): Option<(Bytes, Bytes)> {
    if s == [] then None
    else if s[|s| - 1] == sep then Some((s[..|s| - 1], []))
    else
      var (a, b) :- RSplitOnce(s[..|s| - 1], sep);
      Some((a, b + [s[|s| - 1]]))
  }

  lemma {:induction false} RSplitOnceExact(s: Bytes, sep: u8, a: Bytes, b: Bytes)
    ensures RSplitOnce(s, sep) == Some((a, b)) <==> s == a + [sep] + b && sep !in b
  {
    if s != [] {
      var init, last := s[..|s| - 1], s[|s| - 1];
      assert s == init + [last];
      if b == [] {
        assert a + [sep] + b == a + [sep];
        assert s == a + [sep] <==> init == a && last == sep;
      } else {
        var bInit, bLast := b[..|b| - 1], b[|b| - 1];
        assert b == bInit + [bLast];
        RSplitOnceExact(init, sep, a, bInit);
        assert a + [sep] + b == (a + [sep] + bInit) + [bLast];
        assert s == a + [sep] + b <==> init == a + [sep] + bInit && last == bLast;
      }
    }
  }

  predicate IsStem(stem: Bytes) {
    stem != [] && AllDigits(stem)
  }

  /** The stem and extension of an envelope file's name. */
  function EnvelopeName(name: Bytes): Option<(Bytes, Ext)> {
    var (stem, text) :- RSplitOnce(name, DOT);
    var ext :- ExtOf(text);
    if IsStem(stem) then Some((stem, ext)) else None
  }

  /** Names of envelope files are exactly digits, a dot and one of the four extensions. */
  lemma EnvelopeNameExact(name: Bytes, stem: Bytes, ext: Ext)
    ensures EnvelopeName(name) == Some((stem, ext)) <==> IsStem(stem) && name == Final(stem, ext)
  {
    hide RSplitOnce, AllDigits, Ext.Text;
    ExtOfText(ext);
    RSplitOnceExact(name, DOT, stem, ext.Text());
    if EnvelopeName(name) == Some((stem, ext)) {
      var text := RSplitOnce(name, DOT).value.1;
      ExtIs(text, ext);
    }
  }

  lemma ExtIs(text: Bytes, ext: Ext)
    requires ExtOf(text) == Some(ext)
    ensures text == ext.Text()
  {
  }

  function StripSuffix(s: Bytes, suffix: Bytes): Option<Bytes> {
    if |s| >= |suffix| && s[|s| - |suffix|..] == suffix then Some(s[..|s| - |suffix|]) else None
  }

  /** Whether a name is that of an envelope file still being written. */
  predicate IsPartial(name: Bytes) {
    var rest := StripSuffix(name, PART_SUFFIX);
    rest.Some? && EnvelopeName(rest.value).Some?
  }

  lemma PartialExact(name: Bytes)
    ensures IsPartial(name) <==> exists stem: Bytes, ext: Ext :: IsStem(stem) && name == Part(stem, ext)
  {
    hide EnvelopeName, AllDigits, Ext.Text;
    if IsPartial(name) {
      var rest := StripSuffix(name, PART_SUFFIX).value;
      var (stem, ext) := EnvelopeName(rest).value;
      EnvelopeNameExact(rest, stem, ext);
      assert name == rest + PART_SUFFIX;
      assert IsStem(stem) && name == Part(stem, ext);
    }
    if stem: Bytes, ext: Ext :| IsStem(stem) && name == Part(stem, ext) {
      EnvelopeNameExact(Final(stem, ext), stem, ext);
      assert name[..|name| - |PART_SUFFIX|] == Final(stem, ext);
    }
  }

  lemma FinalIsNotPart(stem: Bytes, ext: Ext)
    requires IsStem(stem)
    ensures StripSuffix(Final(stem, ext), PART_SUFFIX).None?
  {
    Texts();
    var name := Final(stem, ext);
    assert |ext.Text()| >= 3 && name[|name| - 1] == ext.Text()[|ext.Text()| - 1];
    if ext.Attest? {
      assert name[|name| - 5] == 116;
      assert name[|name| - 5..][0] == 116;
    } else {
      assert name[|name| - 5..][4] == name[|name| - 1] == 103;
    }
  }

  /** No name is both; a reader of envelope names ignores what is being written. */
  lemma PartialIsNoEnvelope(name: Bytes)
    requires IsPartial(name)
    ensures EnvelopeName(name).None?
  {
    hide AllDigits, RSplitOnce;
    if EnvelopeName(name).Some? {
      var (stem, ext) := EnvelopeName(name).value;
      EnvelopeNameExact(name, stem, ext);
      FinalIsNotPart(stem, ext);
    }
  }

  /** The eight names of an envelope are different names, and no other envelope's. */
  lemma NamesAreDistinct(stem: Bytes, a: Ext, b: Ext)
    ensures Final(stem, a) == Final(stem, b) <==> a == b
    ensures Part(stem, a) == Part(stem, b) <==> a == b
    ensures Final(stem, a) != Part(stem, b)
  {
    Texts();
    if a != b {
      var x, y := a.Text(), b.Text();
      assert x != y;
      assert Final(stem, a)[|stem| + 1..] == x && Final(stem, b)[|stem| + 1..] == y;
      assert Part(stem, a)[..|stem| + 1 + |x|] == Final(stem, a) && Part(stem, b)[..|stem| + 1 + |y|] == Final(stem, b);
    }
  }
}
