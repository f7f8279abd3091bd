/**
 * The "Get Directions" button (`enableRoutingButton` in script.js): it is
 * enabled only while both endpoints have been resolved to coordinates.
 */
module Routing {
  import opened Opt

  /** A resolved map position. */
  datatype LatLng = LatLng(lat: real, lng: real)

  /** The two endpoints and the button's `disabled` property. */
  class RoutingForm {
    var fromLL: Option<LatLng>
    var toLL: Option<LatLng>
    var getRouteDisabled: bool

    /** Page load: both endpoints are `null`; the button starts as the page declares it. */
    constructor (initiallyDisabled: bool)
      ensures fromLL == None && toLL == None && getRouteDisabled == initiallyDisabled
    {
      fromLL, toLL := None, None;
      getRouteDisabled := initiallyDisabled;
    }

    /** `enableRoutingButton`: disabled exactly when an endpoint is unset. */
    method EnableRoutingButton()
      modifies this`getRouteDisabled
      ensures getRouteDisabled <==> fromLL == None || toLL == None
    {
      getRouteDisabled := !(fromLL.Some? && toLL.Some?);
    }
  }
}
