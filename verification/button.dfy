/**
 The Mailchimp-safe CTA button of the converter: a fixed nested-table template with the URL
 in the anchor's `href` and the label in the innermost `span`, both inserted verbatim.
 */
module Button {
  import opened Base
  import opened Text

  const ButtonHead := "<" + "table cellpadding=\"0\" cellspacing=\"0\" style=\"margin: 20px auto; border-collapse: collapse; width: 100%;\">\n  <tr>\n    <td style=\"text-align: center;\">\n      <table cellpadding=\"0\" cellspacing=\"0\" style=\"margin: 0 auto; border-collapse: collapse;\">\n        <tr>\n          <td style=\"padding: 0; background-color: #ff6b35; border-radius: 6px;\">\n            <a href=\""

  const ButtonMid := "\"" + " style=\"\n              display: block;\n              padding: 12px 24px;\n              background-color: #ff6b35 !important;\n              color: #ffffff !important;\n              text-decoration: none !important;\n              border-radius: 6px;\n              font-weight: bold;\n              font-size: 16px;\n              line-height: 1.2;\n              text-align: center;\n              border: none;\n              font-family: Arial, sans-serif;\n              mso-line-height-rule: exactly;\n            \" target=\"_blank\">\n              <font color=\"#ffffff\" style=\"color: #ffffff !important; text-decoration: none !important;\">\n                <span style=\"color: #ffffff !important; text-decoration: none !important;\">\n                  "

  const ButtonTail := "\n                </span>\n              </font>\n            </a>\n          </td>\n        </tr>\n      </table>\n    </td>\n  </tr>\n</table" + ">"

  /**
   `createMailchimpButton(text, url = "#")`: the template literal (which opens with a line
   break) trimmed. Only that leading line break goes, whatever the label and URL are.
   */
  function CreateMailchimpButton(text: string, url: Option<string>): (r: string)
    ensures r == ButtonHead + url.OrElse("#") + ButtonMid + text + ButtonTail
  {
    TemplateFacts();
    FramedTrim(ButtonHead, url.OrElse("#"), ButtonMid, text, ButtonTail);
    Trim("\n" + ButtonHead + url.OrElse("#") + ButtonMid + text + ButtonTail)
  }

  lemma TemplateFacts()
    ensures ButtonHead != [] && ButtonHead[0] == '<'
    ensures ButtonTail != [] && ButtonTail[|ButtonTail| - 1] == '>'
    ensures ButtonMid != [] && ButtonMid[0] == '"'
  {
  }

  lemma TrimLineBreak(core: string)
    requires IsTrimmed(core)
    ensures Trim("\n" + core) == core
  {
    TrimPadded("\n", core, []);
    assert "\n" + core + [] == "\n" + core;
  }

  lemma FramedIsTrimmed(head: string, body: string, tail: string)
    requires head != [] && !IsSpace(head[0])
    requires tail != [] && !IsSpace(tail[|tail| - 1])
    ensures IsTrimmed(head + body + tail)
  {
    var core := head + body + tail;
    assert core[0] == head[0];
    assert core[|core| - 1] == tail[|tail| - 1];
  }

  /** A line break before a string framed by non-blank ends is all that `trim` removes. */
  lemma FramedTrim(head: string, x: string, mid: string, y: string, tail: string)
    requires head != [] && !IsSpace(head[0])
    requires tail != [] && !IsSpace(tail[|tail| - 1])
    ensures Trim("\n" + head + x + mid + y + tail) == head + x + mid + y + tail
  {
    var core := head + x + mid + y + tail;
    FramedIsTrimmed(head, x + mid + y, tail);
    assert head + (x + mid + y) + tail == core;
    var full := "\n" + head + x + mid + y + tail;
    assert full == "\n" + core;
    TrimLineBreak(core);
    assert Trim(full) == core;
  }

  /** Reads the URL and the label back out of a rendered button, cutting at the first `ButtonMid`. */
  function ParseButton(b: string): Option<(string, string)> {
    SplitFramed(b, ButtonHead, ButtonMid, ButtonTail)
  }

  function SplitFramed(b: string, head: string, mid: string, tail: string): Option<(string, string)> {
    if |b| >= |head| + |tail| && b[..|head|] == head && b[|b| - |tail|..] == tail then
      var inner := b[|head|..|b| - |tail|];
      match IndexOf(inner, mid)
      case Some(k) => Some((inner[..k], inner[k + |mid|..]))
      case None => None
    else None
  }

  lemma SplitFramedRoundTrip(head: string, x: string, mid: string, y: string, tail: string)
    requires mid != []
    requires forall i :: 0 <= i < |x| ==> x[i] != mid[0]
    ensures SplitFramed(head + x + mid + y + tail, head, mid, tail) == Some((x, y))
  {
    var b := head + x + mid + y + tail;
    var inner := x + mid + y;
    assert b == head + inner + tail;
    assert b[..|head|] == head;
    assert b[|b| - |tail|..] == tail;
    assert b[|head|..|b| - |tail|] == inner;
    assert OccursAt(inner, mid, |x|) by {
      assert inner[|x|..|x| + |mid|] == mid;
    }
    forall j | 0 <= j < |x|
      ensures !OccursAt(inner, mid, j)
    {
      if OccursAt(inner, mid, j) {
        OccursAtChar(inner, mid, j, 0);
        assert false;
      }
    }
    assert IndexOf(inner, mid) == Some(|x|);
    assert inner[..|x|] == x;
    assert inner[|x| + |mid|..] == y;
  }

  /**
   The URL and the label are recoverable from the button whenever the URL holds no `"`
   (the first character of `ButtonMid`): nothing of the template is lost or altered.
   */
  lemma ButtonRoundTrip(text: string, url: string)
    requires forall i :: 0 <= i < |url| ==> url[i] != '"'
    ensures ParseButton(CreateMailchimpButton(text, Some(url))) == Some((url, text))
  {
    TemplateFacts();
    SplitFramedRoundTrip(ButtonHead, url, ButtonMid, text, ButtonTail);
  }

  /** A button built without a URL links to `#`. */
  lemma DefaultUrl(text: string)
    ensures ParseButton(CreateMailchimpButton(text, None)) == Some(("#", text))
  {
    ButtonRoundTrip(text, "#");
  }
}
