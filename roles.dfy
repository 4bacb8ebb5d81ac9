/** The element classifier: a lower-case tag name plus a click flag gives one of five roles. */
module Roles {
  datatype Role = Link | Input | Img | Button | Text {
    /** The tag written into an output line. */
    function Name(): (r: string)
      ensures r in {"link", "input", "img", "button", "text"}
      ensures r != "textarea"
    {
      match this
      case Link => "link"
      case Input => "input"
      case Img => "img"
      case Button => "button"
      case Text => "text"
    }
  }

  /**
   * `convert_name`: the first matching rule wins — `a`, then `input`, then
   * `img`, then (`button` or clickable), else plain text.
   */
  function ConvertName(nodeName: string, hasClickHandler: bool): (r: Role)
    ensures r == Link <==> nodeName == "a"
    ensures r == Input <==> nodeName == "input"
    ensures r == Img <==> nodeName == "img"
    ensures r == Button <==> nodeName !in {"a", "input", "img"} && (nodeName == "button" || hasClickHandler)
    ensures r == Text <==> nodeName !in {"a", "input", "img", "button"} && !hasClickHandler
  {
    if nodeName == "a" then Link
    else if nodeName == "input" then Input
    else if nodeName == "img" then Img
    else if nodeName == "button" || hasClickHandler then Button
    else Text
  }
}
