/**
 * The venue map's style injection: a `<style>` block is spliced into the SVG
 * text right after its first `>`. The block's CSS is a parameter.
 */
module MapStyle {

  import opened Options
  import opened Text

  /** `injectStyle`: text without any `>` is returned as it is. */
  function InjectStyle(src: string, style: string): (r: string)
    ensures '>' !in src ==> r == src
    ensures '>' in src ==> |r| == |src| + |style|
  {
    match IndexOf(src, '>')
    case None => src
    case Some(i) => src[..i + 1] + style + src[i + 1..]
  }

  /** Where the block goes: directly after the first `>`, with the text around it kept. */
  lemma InjectedAfterFirstClose(src: string, style: string, i: nat)
    requires i < |src| && src[i] == '>' && '>' !in src[..i]
    ensures var r := InjectStyle(src, style);
      && r[..i + 1] == src[..i + 1]
      && r[i + 1..i + 1 + |style|] == style
      && r[i + 1 + |style|..] == src[i + 1..]
  {
    var r := InjectStyle(src, style);
    assert IndexOf(src, '>') == Some(i);
  }

  /** Cutting the block back out restores the source, and the first `>` stays where it was. */
  lemma InjectionReversible(src: string, style: string)
    requires '>' in src
    ensures var i := IndexOf(src, '>').value;
      var r := InjectStyle(src, style);
      && r[..i + 1] + r[i + 1 + |style|..] == src
      && IndexOf(r, '>') == Some(i)
  {
    var i := IndexOf(src, '>').value;
    var r := InjectStyle(src, style);
    InjectedAfterFirstClose(src, style, i);
    assert src == src[..i + 1] + src[i + 1..];
    assert r[..i] == src[..i];
    assert r[..i + 1][i] == '>';
  }

  /** With an XML declaration in front, the block lands after the declaration, before the `<svg>` tag. */
  lemma PrologExample(style: string)
    ensures InjectStyle("<?xml?><svg>", style) == "<?xml?>" + style + "<svg>"
  {
    var src := "<?xml?><svg>";
    assert src[..6] == "<?xml?" && src[..7] == "<?xml?>" && src[7..] == "<svg>";
    InjectedAfterFirstClose(src, style, 6);
    var r := InjectStyle(src, style);
    assert r == r[..7] + r[7..7 + |style|] + r[7 + |style|..];
  }
}
