/**
 * The Windows line-ending handling around both Smali patchers: CRLF is
 * turned into LF before the patterns run (`replace(/\r\n/g, '\n')`) and LF
 * back into CRLF before the file is written (`replace(/\n/g, '\r\n')`).
 */
module LineEndings {
  import opened Text

  /** `s.replace(/\r\n/g, '\n')`: non-overlapping, left to right. */
  function ToLf(s: string): string
    decreases |s|
  {
    if |s| == 0 then ""
    else if |s| >= 2 && s[0] == '\r' && s[1] == '\n' then "\n" + ToLf(s[2..])
    else [s[0]] + ToLf(s[1..])
  }

  /** `s.replace(/\n/g, '\r\n')`. */
  function ToCrlf(s: string): string {
    ReplaceChar(s, '\n', "\r\n")
  }

  /** Every line break of `s` is a CRLF pair. */
  predicate CrlfOnly(s: string) {
    forall i | 0 <= i < |s| && s[i] == '\n' :: i > 0 && s[i - 1] == '\r'
  }

  lemma ToCrlfCons(c: char, s: string)
    ensures ToCrlf([c] + s) == (if c == '\n' then "\r\n" else [c]) + ToCrlf(s)
  {
    assert ([c] + s)[1..] == s;
  }

  /** A converted text never starts with a bare LF. */
  lemma ToCrlfHead(s: string)
    requires |s| > 0
    ensures ToCrlf(s)[0] != '\n'
  {
    assert s == [s[0]] + s[1..];
    ToCrlfCons(s[0], s[1..]);
  }

  /** Converting to CRLF and back gives the text back: the write-side conversion loses nothing. */
  lemma {:induction false} ToLfToCrlf(s: string)
    decreases |s|
    ensures ToLf(ToCrlf(s)) == s
  {
    if |s| > 0 {
      var r := ToCrlf(s[1..]);
      assert s == [s[0]] + s[1..];
      ToCrlfCons(s[0], s[1..]);
      ToLfToCrlf(s[1..]);
      if s[0] == '\n' {
        var w := "\r\n" + r;
        assert w[2..] == r;
      } else {
        var w := [s[0]] + r;
        assert w[1..] == r;
        if s[0] == '\r' && |r| > 0 {
          ToCrlfHead(s[1..]);
        }
      }
    }
  }

  /** On a text whose line breaks are all CRLF, converting to LF and back gives the text back. */
  lemma {:induction false} ToCrlfToLf(s: string)
    requires CrlfOnly(s)
    decreases |s|
    ensures ToCrlf(ToLf(s)) == s
  {
    if |s| > 0 {
      if |s| >= 2 && s[0] == '\r' && s[1] == '\n' {
        var rest := s[2..];
        assert CrlfOnly(rest) by {
          forall i | 0 <= i < |rest| && rest[i] == '\n' ensures i > 0 && rest[i - 1] == '\r' {
            assert s[i + 2] == '\n';
          }
        }
        ToCrlfToLf(rest);
        ToCrlfCons('\n', ToLf(rest));
        assert s == "\r\n" + rest;
      } else {
        var rest := s[1..];
        assert s[0] != '\n';
        assert CrlfOnly(rest) by {
          forall i | 0 <= i < |rest| && rest[i] == '\n' ensures i > 0 && rest[i - 1] == '\r' {
            assert s[i + 1] == '\n';
          }
        }
        ToCrlfToLf(rest);
        ToCrlfCons(s[0], ToLf(rest));
        assert s == [s[0]] + rest;
      }
    }
  }

  /** The read-side conversion touches only line breaks: every other character occurs as often as before. */
  lemma {:induction false} ToLfKeepsOther(s: string, c: char)
    requires c != '\r' && c != '\n'
    decreases |s|
    ensures Count(ToLf(s), c) == Count(s, c)
  {
    if |s| > 0 {
      if |s| >= 2 && s[0] == '\r' && s[1] == '\n' {
        ToLfKeepsOther(s[2..], c);
        CountConcat("\n", ToLf(s[2..]), c);
        assert s == "\r\n" + s[2..];
        CountConcat("\r\n", s[2..], c);
      } else {
        ToLfKeepsOther(s[1..], c);
        CountConcat([s[0]], ToLf(s[1..]), c);
        assert s == [s[0]] + s[1..];
        CountConcat([s[0]], s[1..], c);
      }
    }
  }

  /** The text the patterns see: on Windows with CRLF turned into LF. */
  function ReadContent(raw: string, windows: bool): string {
    if windows then ToLf(raw) else raw
  }

  /** The text written back: on Windows with LF turned into CRLF again. */
  function WriteContent(patched: string, windows: bool): string {
    if windows then ToCrlf(patched) else patched
  }

  /** Reading back what was written gives the patched text on either platform. */
  lemma WriteThenRead(patched: string, windows: bool)
    ensures ReadContent(WriteContent(patched, windows), windows) == patched
  {
    if windows {
      ToLfToCrlf(patched);
    }
  }
}
