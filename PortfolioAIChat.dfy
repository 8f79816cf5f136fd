/** The top-level screen (src/components/PortfolioAIChat.tsx): the upload
    screen until an upload succeeds, then the chat. */
module PortfolioAIChat {
  import opened Wrappers
  import opened Portfolio

  /** What the content area renders: the upload form, with the data
      preview under it when `preview` holds, or the chat for a session. */
  datatype View = UploadScreen(preview: bool) | ChatScreen(sessionId: string, data: PortfolioData)

  class App {
    var sessionId: Option<string>
    var portfolioData: Option<PortfolioData>
    var showChat: bool

    /** The three fields are set together: the chat shows exactly when a
        session and its data are known, and neither is kept on the upload
        screen. */
    ghost predicate Valid()
      reads this
    {
      (showChat ==> sessionId.Some? && portfolioData.Some?) &&
      (!showChat ==> sessionId.None? && portfolioData.None?)
    }

    constructor ()
      ensures Valid()
      ensures sessionId == None && portfolioData == None && !showChat
    {
      sessionId := None;
      portfolioData := None;
      showChat := false;
    }

    /** `handleUploadSuccess`. */
    method HandleUploadSuccess(id: string, data: PortfolioData)
      requires Valid()
      modifies this
      ensures Valid()
      ensures sessionId == Some(id) && portfolioData == Some(data) && showChat
    {
      sessionId := Some(id);
      portfolioData := Some(data);
      showChat := true;
    }

    /** `handleBackToUpload`. */
    method HandleBackToUpload()
      requires Valid()
      modifies this
      ensures Valid()
      ensures sessionId == None && portfolioData == None && !showChat
    {
      sessionId := None;
      portfolioData := None;
      showChat := false;
    }

    /** The content area. The chat's `sessionId!` always has a value, and
        the preview under the upload form, guarded by `portfolioData`, is
        never rendered. */
    function Content(): (v: View)
      reads this
      requires Valid()
      ensures v.ChatScreen? <==> showChat
      ensures v.ChatScreen? ==> Some(v.sessionId) == sessionId && Some(v.data) == portfolioData
      ensures v.UploadScreen? ==> !v.preview
    {
      if !showChat then UploadScreen(portfolioData.Some?)
      else ChatScreen(sessionId.value, portfolioData.value)
    }
  }
}
