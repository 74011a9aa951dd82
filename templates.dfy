/** The fixed JavaScript text the view wraps around the generated lines, character
    for character as djsgettext/views.py:18-90 defines it, and the one substitution
    made into it. The model never interprets this text. */
module Templates {

  const TemplateHead: string :=
    "(function() {\n"
    + "    var catalog = {};\n"

  const TemplateBody: string :=
    "\n"
    + "    var gettext = function(msgid) {\n"
    + "        var value = catalog[msgid];\n"
    + "        if (typeof(value) == 'undefined') {\n"
    + "            return msgid;\n"
    + "        } else {\n"
    + "            return (typeof(value) == 'string') ? value : value[0];\n"
    + "        }\n"
    + "    };\n"
    + "\n"
    + "    var ngettext =(singular, plural, count) {\n"
    + "        value = catalog[singular];\n"
    + "        if (typeof(value) == 'undefined') {\n"
    + "            return (count == 1) ? singular : plural;\n"
    + "        } else {\n"
    + "            return value[pluralidx(count)];\n"
    + "        }\n"
    + "    };\n"
    + "\n"
    + "    var pgettext = function(context, msgid) {\n"
    + "        var value = gettext(context + '\\x04' + msgid);\n"
    + "        if (value.indexOf('\\x04') != -1) {\n"
    + "            value = msgid;\n"
    + "        }\n"
    + "        return value;\n"
    + "    };\n"
    + "\n"
    + "    var npgettext = function(context, singular, plural, count) {\n"
    + "        var value = ngettext(context + '\\x04' + singular, context + '\\x04' + plural, count);\n"
    + "        if (value.indexOf('\\x04') != -1) {\n"
    + "            value = ngettext(singular, plural, count);\n"
    + "        }\n"
    + "        return value;\n"
    + "    };\n"
    + "\n"
    + "    var interpolate = function(fmt, obj, named) {\n"
    + "        if (named) {\n"
    + "            return fmt.replace(/%\\(\\w+\\)s/g, function(match){return String(obj[match.slice(2,-2)])});\n"
    + "        } else {\n"
    + "            return fmt.replace(/%s/g, function(match){return String(obj.shift())});\n"
    + "        }\n"
    + "    };\n"

  const TemplateFooter: string :=
    "\n"
    + "    this.gettext = gettext;\n"
    + "    this.ngettext = ngettext;\n"
    + "    this.pgettext = pgettext;\n"
    + "    this.npgettext = npgettext;\n"
    + "    this.interpolate = interpolate;\n"
    + "    this.pluralidx = pluralidx;\n"
    + "}).call(this);\n"

  /** `plural_idx_template` is this head, the one conversion `%s`, and this tail. */
  const PluralIdxHead: string :=
    "\n"
    + "    var pluralidx = function(n) {\n"
    + "        var v="

  const PluralIdxTail: string :=
    ";\n"
    + "        if (typeof(v) == 'boolean') {\n"
    + "            return v ? 1 : 0;\n"
    + "        } else {\n"
    + "            return v;\n"
    + "        }\n"
    + "    };\n"

  const PluralIdxTemplate: string := PluralIdxHead + "%s" + PluralIdxTail

  const PluralSimpleTemplate: string :=
    "\n"
    + "    var pluralidx function(count) { return (count == 1) ? 0 : 1; };\n"

  /** `template % arg` for a template whose conversions are a single `%s`:
      the argument takes the place of the first `%s`. */
  function FormatOne(template: string, arg: string): string {
    if |template| < 2 then template
    else if template[0] == '%' && template[1] == 's' then arg + template[2..]
    else [template[0]] + FormatOne(template[1..], arg)
  }

  lemma {:induction false} FormatOneAt(head: string, tail: string, arg: string)
    requires '%' !in head
    ensures FormatOne(head + "%s" + tail, arg) == head + arg + tail
  {
    var t := head + "%s" + tail;
    if |head| == 0 {
      assert t[2..] == tail;
    } else {
      assert t[0] == head[0] && head[0] != '%';
      assert t[1..] == head[1..] + "%s" + tail;
      assert '%' !in head[1..];
      calc {
        FormatOne(t, arg);
        [head[0]] + FormatOne(head[1..] + "%s" + tail, arg);
        { FormatOneAt(head[1..], tail, arg); }
        [head[0]] + (head[1..] + arg + tail);
        { assert [head[0]] + head[1..] == head; }
        head + arg + tail;
      }
    }
  }

  /** `plural_idx_template % rule`: the rule lands between the fixed head and tail. */
  function PluralIdx(rule: string): (r: string)
    ensures r == PluralIdxHead + rule + PluralIdxTail
  {
    FormatOneAt(PluralIdxHead, PluralIdxTail, rule);
    FormatOne(PluralIdxTemplate, rule)
  }
}
